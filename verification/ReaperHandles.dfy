/** When no handle is destroyed while its thread is joinable: exactly as long as the reaper never asks a handle whether
    it is joinable between the creation of its thread and the storing of the handle. */
module ReaperHandles {
  import opened ReaperProtocol
  import opened ReaperSafety

  /** The reaper is about to ask a handle that the acceptor has not stored yet; it takes it for an empty one. */
  ghost predicate EarlyReap(s: State, e: Event) {
    e == ReaperStep && s.reaper.Reaping? && s.main == Storing(s.reaper.node)
  }

  /** No step of the run is such a step. */
  ghost predicate NeverEarly(atomic: bool, events: seq<Event>) {
    forall k :: 0 <= k < |events| ==> !EarlyReap(After(atomic, events[..k]), events[k])
  }

  // ------------------------------------------------------------------ the invariant

  /** The handle of node `i` is owned, or the acceptor is about to store it. */
  predicate Held(s: State, i: nat) {
    i in s.nodes && (s.nodes[i] == Owns || s.main == Storing(i))
  }

  /** The node is listed, and its handle is spent. */
  predicate Spent(s: State, i: nat) {
    i in s.nodes && s.nodes[i] == Empty && s.main != Storing(i)
  }

  /** A worker not joined yet is held; queued iterators are those of held workers, and what the reaper is about to erase
      is spent. */
  ghost predicate Handles(s: State) {
    && (forall i :: i in s.workers && Joins(s, i) == 0 ==> Held(s, i))
    && (s.main.Spawning? || s.main.Storing? ==> s.main.node in s.nodes)
    && (forall i :: i in s.queue ==> i in s.nodes)
    && (!s.reaper.Finished? ==> forall i :: i in s.queue ==> Held(s, i))
    && (s.reaper.Reaping? || s.reaper.Joining? ==> Held(s, s.reaper.node))
    && (s.reaper.Erasing? || s.reaper.Erased? ==> Spent(s, s.reaper.node))
  }

  ghost predicate Inv(s: State) {
    && Base(s) && Handles(s) && !s.crashed
    && (s.main.Over? ==> forall i :: i in s.workers ==> Joins(s, i) == 1)
  }

  // ------------------------------------------------------------------ the main thread

  lemma {:induction false} FirstExists(s: State, j: nat)
    requires Owned(s, j)
    ensures exists i: nat :: FirstJoinable(s, i)
    decreases j
  {
    if h: nat :| h < j && Owned(s, h) {
      FirstExists(s, h);
    } else {
      assert forall h :: h in s.nodes && h < j ==> !Owned(s, h);
      assert FirstJoinable(s, j);
    }
  }

  /** Handles do not depend on the locks, the stop flag and most points of the threads. */
  lemma HandlesSame(s: State, s': State)
    requires Handles(s)
    requires s'.main == s.main || (!s.main.Storing? && !s'.main.Storing? && !s'.main.Spawning?)
    requires s'.reaper == s.reaper || (!s.reaper.Finished? && !HoldsNode(s'.reaper))
    requires s'.workers == s.workers && s'.nodes == s.nodes && s'.joins == s.joins && s'.queue == s.queue
    ensures Handles(s')
  {
    assert forall j :: Joins(s', j) == Joins(s, j) && Held(s', j) == Held(s, j) && Spent(s', j) == Spent(s, j);
  }

  lemma RestKeepsHandles(atomic: bool, s: State)
    requires Base(s) && Handles(s) && s.main.JoiningRest? && Enabled(s, MainStep)
    ensures Handles(MainMove(atomic, s))
  {
    if i: nat :| FirstJoinable(s, i) && MainMove(atomic, s) == Join(s, i) {
      var s' := Join(s, i);
      assert forall j :: j != i ==> Joins(s', j) == Joins(s, j) && Held(s', j) == Held(s, j);
    } else {
      HandlesSame(s, MainMove(atomic, s));
    }
  }

  lemma GrowingKeepsHandles(atomic: bool, s: State)
    requires Base(s) && Handles(s) && s.main.Growing?
    ensures Handles(MainMove(atomic, s))
  {
    var s' := MainMove(atomic, s);
    assert forall j :: j in s.nodes ==>
        Joins(s', j) == Joins(s, j) && Held(s', j) == Held(s, j) && Spent(s', j) == Spent(s, j);
  }

  lemma SpawningKeepsHandles(atomic: bool, s: State)
    requires Base(s) && Handles(s) && s.main.Spawning?
    ensures Handles(MainMove(atomic, s))
  {
    var s', i := MainMove(atomic, s), s.main.node;
    assert Held(s', i);
    assert forall j :: j != i ==>
        Joins(s', j) == Joins(s, j) && Held(s', j) == Held(s, j) && Spent(s', j) == Spent(s, j);
  }

  lemma StoringKeepsHandles(atomic: bool, s: State)
    requires Base(s) && Handles(s) && s.main.Storing?
    ensures Handles(MainMove(atomic, s))
  {
    var s', i := MainMove(atomic, s), s.main.node;
    assert forall j :: Joins(s', j) == Joins(s, j) && Held(s', j) == Held(s, j) && Spent(s', j) == Spent(s, j);
  }

  lemma MainKeepsHandles(atomic: bool, s: State)
    requires Base(s) && Handles(s) && Enabled(s, MainStep)
    ensures Handles(MainMove(atomic, s))
  {
    match s.main
    case JoiningRest => RestKeepsHandles(atomic, s);
    case Growing => GrowingKeepsHandles(atomic, s);
    case Spawning(i) => SpawningKeepsHandles(atomic, s);
    case Storing(i) => StoringKeepsHandles(atomic, s);
    case _ => HandlesSame(s, MainMove(atomic, s));
  }

  /** The destructor leaves its last loop only when no handle is joinable any more: none is destroyed, and every
      worker has been joined. */
  lemma MainEnds(atomic: bool, s: State)
    requires Inv(s) && Enabled(s, MainStep)
    ensures var s' := MainMove(atomic, s);
            !s'.crashed && (s'.main.Over? ==> forall i :: i in s'.workers ==> Joins(s', i) == 1)
  {
    if s.main.JoiningRest? && !(exists i: nat :: FirstJoinable(s, i)) {
      forall j: nat
        ensures !Owned(s, j)
      {
        if Owned(s, j) { FirstExists(s, j); }
      }
      assert forall j :: j in s.nodes ==> !Owned(s, j);
      assert forall i :: i in s.workers && Joins(s, i) == 0 ==> Held(s, i) && Owned(s, i);
    }
  }

  // ------------------------------------------------------------------ the reaper

  lemma JoiningKeepsHandles(s: State)
    requires Base(s) && Handles(s) && s.reaper.Joining? && Enabled(s, ReaperStep)
    ensures Handles(ReaperMove(s))
  {
    var s', i := ReaperMove(s), s.reaper.node;
    assert Spent(s', i);
    assert forall j :: j != i ==> Joins(s', j) == Joins(s, j) && Held(s', j) == Held(s, j);
  }

  lemma ErasingKeepsHandles(s: State)
    requires Base(s) && Handles(s) && s.reaper.Erased?
    ensures Handles(ReaperMove(s)) && ReaperMove(s).crashed == s.crashed
  {
    var s', i := ReaperMove(s), s.reaper.node;
    assert forall j :: j != i ==> Joins(s', j) == Joins(s, j) && Held(s', j) == Held(s, j);
  }

  lemma DrainingKeepsHandles(s: State)
    requires Handles(s) && s.reaper.Draining?
    ensures Handles(ReaperMove(s))
  {
    if s.queue == [] {
      HandlesSame(s, ReaperMove(s));
    } else {
      PopKeepsHandles(s);
    }
  }

  lemma PopKeepsHandles(s: State)
    requires Handles(s) && s.reaper.Draining? && s.queue != []
    ensures Handles(ReaperMove(s))
  {
    var s' := ReaperMove(s);
    assert s' == s.(reaper := Reaping(s.queue[0]), queue := s.queue[1..]);
    assert forall j :: Joins(s', j) == Joins(s, j) && Held(s', j) == Held(s, j);
    assert forall i :: i in s.queue[1..] ==> i in s.queue;
  }

  /** A handle found joinable is owned; one found empty is spent, unless it is asked too early. */
  lemma AskingKeepsHandles(s: State)
    requires Handles(s) && s.reaper.Reaping? && !EarlyReap(s, ReaperStep)
    ensures Handles(ReaperMove(s))
  {
    var s' := ReaperMove(s);
    assert forall j :: Joins(s', j) == Joins(s, j) && Held(s', j) == Held(s, j) && Spent(s', j) == Spent(s, j);
  }

  lemma OtherReaperKeepsHandles(s: State)
    requires Handles(s) && !EarlyReap(s, ReaperStep) && Enabled(s, ReaperStep)
    requires !s.reaper.Joining? && !s.reaper.Erased? && !s.reaper.Draining?
    ensures Handles(ReaperMove(s)) && ReaperMove(s).crashed == s.crashed
  {
    ReaperLeaves(s);
    if s.reaper.Reaping? {
      AskingKeepsHandles(s);
    } else {
      var s' := ReaperMove(s);
      assert forall j :: Joins(s', j) == Joins(s, j) && Held(s', j) == Held(s, j) && Spent(s', j) == Spent(s, j);
    }
  }

  lemma ReaperKeepsHandles(s: State)
    requires Base(s) && Handles(s) && Enabled(s, ReaperStep) && !EarlyReap(s, ReaperStep)
    ensures Handles(ReaperMove(s)) && ReaperMove(s).crashed == s.crashed
  {
    match s.reaper
    case Joining(_) => JoiningKeepsHandles(s);
    case Erased(_) => ErasingKeepsHandles(s);
    case Draining => DrainingKeepsHandles(s);
    case _ => OtherReaperKeepsHandles(s);
  }

  // ------------------------------------------------------------------ the workers

  lemma WorkerKeepsHandles(s: State, i: nat)
    requires Base(s) && Handles(s) && Enabled(s, WorkerStep(i))
    ensures Handles(WorkerMove(s, i))
  {
    var s' := WorkerMove(s, i);
    WorkerLeaves(s, i);
    WorkerLeavesRest(s, i);
    assert forall j :: Joins(s', j) == Joins(s, j) && Held(s', j) == Held(s, j) && Spent(s', j) == Spent(s, j);
    assert Joins(s, i) == 0 && Held(s, i);
  }

  lemma WorkerLeavesRest(s: State, i: nat)
    requires i in s.workers
    ensures var s' := WorkerMove(s, i);
            && s'.queue == (if s.workers[i].Pushing? then s.queue + [i] else s.queue)
            && (s'.reaper == s.reaper || (s.reaper.Sleeping? && s'.reaper.Woken?)) && s'.crashed == s.crashed
  {
    if s.workers[i].Signalling? {
      return;
    }
  }

  // ------------------------------------------------------------------ every run without an early reap

  lemma EventKeeps(atomic: bool, s: State, e: Event)
    requires Inv(s) && !EarlyReap(s, e)
    ensures Inv(Next(atomic, s, e))
  {
    StepKeeps(atomic, s, e);
    if !Enabled(s, e) { return; }
    match e
    case MainStep =>
      MainKeepsHandles(atomic, s);
      MainEnds(atomic, s);
    case SpawnFails => HandlesSame(s, Next(atomic, s, e));
    case ReaperStep =>
      ReaperKeepsHandles(s);
    case SpuriousWake => HandlesSame(s, Next(atomic, s, e));
    case WorkerStep(i) =>
      WorkerKeepsHandles(s, i);
      WorkerLeaves(s, i);
      WorkerLeavesRest(s, i);
  }

  lemma {:induction false} RunIntact(atomic: bool, events: seq<Event>)
    requires NeverEarly(atomic, events)
    ensures Inv(After(atomic, events))
    decreases |events|
  {
    if events == [] { return; }
    var n := |events| - 1;
    NeverEarlyBefore(atomic, events);
    RunIntact(atomic, events[..n]);
    assert !EarlyReap(After(atomic, events[..n]), events[n]);
    EventKeeps(atomic, After(atomic, events[..n]), events[n]);
  }

  lemma NeverEarlyBefore(atomic: bool, events: seq<Event>)
    requires NeverEarly(atomic, events) && events != []
    ensures NeverEarly(atomic, events[..|events| - 1])
  {
    var before := events[..|events| - 1];
    forall k | 0 <= k < |before|
      ensures !EarlyReap(After(atomic, before[..k]), before[k])
    {
      assert before[..k] == events[..k] && before[k] == events[k];
    }
  }

  // ------------------------------------------------------------------ after an early reap

  /** The reaper is about to erase a node whose handle is owned, missing, or about to be stored: the next steps of
      acceptor and reaper destroy a joinable handle or use an erased node. */
  ghost predicate Doomed(s: State) {
    (s.reaper.Erasing? || s.reaper.Erased?) && !Spent(s, s.reaper.node)
  }

  ghost predicate Lost(s: State) {
    s.crashed || Doomed(s)
  }

  lemma EarlyReapDooms(atomic: bool, s: State)
    requires Base(s) && EarlyReap(s, ReaperStep)
    ensures Doomed(Next(atomic, s, ReaperStep))
  {
  }

  lemma MainKeepsDoomed(atomic: bool, s: State)
    requires Base(s) && Doomed(s) && Enabled(s, MainStep)
    ensures Doomed(MainMove(atomic, s))
  {
    MainLeavesReaper(atomic, s);
    if MainListLocks(s.main) {
      return;
    }
  }

  lemma WorkerKeepsDoomed(s: State, i: nat)
    requires Doomed(s) && Enabled(s, WorkerStep(i))
    ensures Doomed(WorkerMove(s, i))
  {
    WorkerLeaves(s, i);
    WorkerLeavesRest(s, i);
  }

  /** Nothing undoes an early reap. */
  lemma LostStaysLost(atomic: bool, s: State, e: Event)
    requires Base(s) && Lost(s)
    ensures Lost(Next(atomic, s, e))
  {
    if s.crashed {
      CrashedStays(atomic, s, e);
      return;
    }
    if !Enabled(s, e) { return; }
    match e
    case MainStep => MainKeepsDoomed(atomic, s);
    case SpawnFails =>
    case ReaperStep => ReaperKeepsDoomed(s);
    case SpuriousWake =>
    case WorkerStep(i) => WorkerKeepsDoomed(s, i);
  }

  lemma ReaperKeepsDoomed(s: State)
    requires Base(s) && Doomed(s) && Enabled(s, ReaperStep)
    ensures Lost(ReaperMove(s))
  {
  }

  lemma MainStaysCrashed(atomic: bool, s: State)
    requires s.crashed
    ensures MainMove(atomic, s).crashed
  {
    if MainListLocks(s.main) {
      return;
    }
  }

  lemma ReaperStaysCrashed(s: State)
    requires s.crashed
    ensures ReaperMove(s).crashed
  {
    if HoldsNode(s.reaper) {
      return;
    }
  }

  lemma CrashedStays(atomic: bool, s: State, e: Event)
    requires s.crashed
    ensures Next(atomic, s, e).crashed
  {
    if !Enabled(s, e) { return; }
    match e
    case MainStep => MainStaysCrashed(atomic, s);
    case ReaperStep => ReaperStaysCrashed(s);
    case WorkerStep(i) => WorkerLeavesRest(s, i);
    case _ =>
  }

  // ------------------------------------------------------------------ theorems

  lemma {:induction false} EarlyIsLost(atomic: bool, events: seq<Event>)
    requires !NeverEarly(atomic, events)
    ensures Lost(After(atomic, events))
    decreases |events|
  {
    var n := |events| - 1;
    var s := After(atomic, events[..n]);
    RunKeeps(atomic, events[..n]);
    if NeverEarly(atomic, events[..n]) {
      LastIsEarly(atomic, events);
      EarlyReapDooms(atomic, s);
    } else {
      EarlyIsLost(atomic, events[..n]);
      LostStaysLost(atomic, s, events[n]);
    }
  }

  lemma LastIsEarly(atomic: bool, events: seq<Event>)
    requires events != [] && !NeverEarly(atomic, events) && NeverEarly(atomic, events[..|events| - 1])
    ensures EarlyReap(After(atomic, events[..|events| - 1]), events[|events| - 1])
  {
    var before := events[..|events| - 1];
    forall k | 0 <= k < |before|
      ensures !EarlyReap(After(atomic, events[..k]), events[k])
    {
      assert before[..k] == events[..k] && before[k] == events[k];
    }
  }

  /** Exactly when no step of a run asks a handle too early, no joinable handle has been destroyed, no erased node has
      been used, and the node the reaper may be about to erase is spent. */
  lemma IntactExactly(atomic: bool, events: seq<Event>)
    ensures NeverEarly(atomic, events) <==> !Lost(After(atomic, events))
  {
    if NeverEarly(atomic, events) {
      RunIntact(atomic, events);
    } else {
      EarlyIsLost(atomic, events);
    }
  }

  /** So between two reapings a run has crashed if and only if some handle was asked too early. */
  lemma CrashedExactly(atomic: bool, events: seq<Event>)
    requires !After(atomic, events).reaper.Erasing? && !After(atomic, events).reaper.Erased?
    ensures After(atomic, events).crashed <==> !NeverEarly(atomic, events)
  {
    IntactExactly(atomic, events);
  }

  /** After an early reap it takes five more steps of reaper and acceptor, the first of which is the early one. */
  lemma EarlyReapCrashes(atomic: bool, events: seq<Event>)
    requires EarlyReap(After(atomic, events), ReaperStep)
    ensures After(atomic, events + [ReaperStep, MainStep, MainStep, ReaperStep, ReaperStep]).crashed
  {
    RunKeeps(atomic, events);
    var stored := StoredBehindReaper(atomic, events);
    var run := OwnedIsErased(atomic, stored);
    assert run == events + [ReaperStep, MainStep, MainStep, ReaperStep, ReaperStep];
  }

  lemma OwnedIsErased(atomic: bool, events: seq<Event>) returns (run: seq<Event>)
    requires var s := After(atomic, events);
             s.listLock == Nobody && s.reaper.Erasing? && Owned(s, s.reaper.node)
    ensures run == events + [ReaperStep, ReaperStep] && After(atomic, run).crashed
  {
    run := Appended(atomic, events, ReaperStep);
    run := Appended(atomic, run, ReaperStep);
  }

  lemma StoredBehindReaper(atomic: bool, events: seq<Event>) returns (run: seq<Event>)
    requires Base(After(atomic, events)) && EarlyReap(After(atomic, events), ReaperStep)
    ensures run == events + [ReaperStep, MainStep, MainStep]
    ensures var s, s' := After(atomic, events), After(atomic, run);
            s'.listLock == Nobody && s'.reaper == Erasing(s.reaper.node) && Owned(s', s.reaper.node)
  {
    run := Appended(atomic, events, ReaperStep);
    run := Appended(atomic, run, MainStep);
    run := Appended(atomic, run, MainStep);
  }

  lemma Appended(atomic: bool, events: seq<Event>, e: Event) returns (longer: seq<Event>)
    ensures longer == events + [e] && After(atomic, longer) == Next(atomic, After(atomic, events), e)
  {
    longer := events + [e];
    assert longer[..|events|] == events;
  }

  /** In every run that never asks too early: no joinable handle is destroyed and no erased node is used, queued
      iterators are live, and when the destructor is done every worker has exited and was joined exactly once. */
  lemma ReaperSafe(atomic: bool, events: seq<Event>)
    requires NeverEarly(atomic, events)
    ensures var s := After(atomic, events);
            && !s.crashed
            && (forall i :: i in s.queue ==> i in s.nodes)
            && (s.main.Over? ==> forall i :: i in s.workers ==> s.workers[i] == Exited && Joins(s, i) == 1)
  {
    RunIntact(atomic, events);
  }

  // ------------------------------------------------------------------ two repairs

  /** Asking under the list lock: the acceptor holds it until the handle is stored. */
  ghost predicate AskedUnderLock(atomic: bool, events: seq<Event>) {
    forall k :: 0 <= k < |events| ==>
      var s := After(atomic, events[..k]);
      events[k] == ReaperStep && s.reaper.Reaping? ==> s.listLock != Main
  }

  lemma LockedIsNeverEarly(atomic: bool, events: seq<Event>)
    requires AskedUnderLock(atomic, events)
    ensures NeverEarly(atomic, events)
  {
    forall k | 0 <= k < |events|
      ensures !EarlyReap(After(atomic, events[..k]), events[k])
    {
      RunKeeps(atomic, events[..k]);
      assert events[k] == ReaperStep && After(atomic, events[..k]).reaper.Reaping? ==>
          After(atomic, events[..k]).listLock != Main;
    }
  }

  lemma {:induction false} AtomicNeverStores(events: seq<Event>)
    ensures !After(true, events).main.Storing?
    decreases |events|
  {
    if events != [] {
      AtomicNeverStores(events[..|events| - 1]);
      AtomicStep(After(true, events[..|events| - 1]), events[|events| - 1]);
    }
  }

  lemma AtomicStep(s: State, e: Event)
    requires !s.main.Storing?
    ensures !Next(true, s, e).main.Storing?
  {
    if !Enabled(s, e) { return; }
    match e
    case MainStep => AtomicMain(s);
    case SpawnFails =>
    case ReaperStep => ReaperLeavesMain(s);
    case SpuriousWake =>
    case WorkerStep(i) => WorkerLeaves(s, i);
  }

  lemma AtomicMain(s: State)
    requires !s.main.Storing?
    ensures !MainMove(true, s).main.Storing?
  {
    match s.main
    case Accepting =>
    case Growing =>
    case Spawning(_) =>
    case Accepted =>
    case Stopping =>
    case Waking =>
    case Notifying =>
    case Notified =>
    case JoiningReaper =>
    case Closing =>
    case JoiningRest =>
    case Over =>
  }

  lemma ReaperLeavesMain(s: State)
    ensures ReaperMove(s).main == s.main
  {
    if !s.reaper.Joining? && !s.reaper.Erased? && !s.reaper.Draining? {
      ReaperLeaves(s);
    }
  }

  /** Creating the thread and storing its handle in one step. */
  lemma AtomicIsNeverEarly(events: seq<Event>)
    ensures NeverEarly(true, events)
  {
    forall k | 0 <= k < |events|
      ensures !EarlyReap(After(true, events[..k]), events[k])
    {
      AtomicNeverStores(events[..k]);
    }
  }

  // ------------------------------------------------------------------ the code as written

  lemma SpawnedWithoutHandle() returns (events: seq<Event>)
    ensures After(false, events) ==
            INITIAL.(main := Storing(0), listLock := Main, nextNode := 1,
                     nodes := map[0 := Empty], workers := map[0 := Serving])
  {
    events := [];
    events := Appended(false, events, MainStep);
    events := Appended(false, events, MainStep);
    events := Appended(false, events, MainStep);
  }

  lemma WorkerPushes(events: seq<Event>, s: State) returns (longer: seq<Event>)
    requires After(false, events) == s && s.queueLock == Nobody && s.workers == map[0 := Serving]
    ensures After(false, longer) ==
            s.(workers := map[0 := Signalling], queue := s.queue + [0], queueLock := Worker(0))
  {
    longer := Appended(false, events, WorkerStep(0));
    longer := Appended(false, longer, WorkerStep(0));
    longer := Appended(false, longer, WorkerStep(0));
  }

  lemma WorkerRunsThrough(events: seq<Event>, s: State) returns (longer: seq<Event>)
    requires After(false, events) == s && s.queueLock == Nobody && s.reaper == Testing && s.workers == map[0 := Serving]
    ensures After(false, longer) == s.(workers := map[0 := Returning], queue := s.queue + [0])
  {
    longer := WorkerPushes(events, s);
    longer := Appended(false, longer, WorkerStep(0));
    longer := Appended(false, longer, WorkerStep(0));
  }

  lemma ReaperPops(events: seq<Event>, s: State) returns (longer: seq<Event>)
    requires After(false, events) == s && s.queueLock == Nobody && s.reaper == Testing && !s.stop && s.queue == [0]
    ensures After(false, longer) == s.(reaper := Reaping(0), queue := [], queueLock := Reaper)
  {
    longer := Appended(false, events, ReaperStep);
    longer := Appended(false, longer, ReaperStep);
    longer := Appended(false, longer, ReaperStep);
    assert After(false, longer) == s.(reaper := Draining, queueLock := Reaper);
    longer := Appended(false, longer, ReaperStep);
  }

  /** The worker may run through and be reaped before its handle is stored. */
  lemma ReapedTooEarly() returns (events: seq<Event>)
    ensures EarlyReap(After(false, events), ReaperStep)
    ensures After(false, events + [ReaperStep, MainStep, MainStep, ReaperStep, ReaperStep]).crashed
  {
    events := SpawnedWithoutHandle();
    events := WorkerRunsThrough(events, After(false, events));
    events := ReaperPops(events, After(false, events));
    EarlyReapCrashes(false, events);
  }

  /** So every run is safe in the one program and not in the other. */
  lemma SafeExactlyIfAtomic(atomic: bool)
    ensures (forall events :: !After(atomic, events).crashed) <==> atomic
  {
    if atomic {
      forall events
        ensures !After(atomic, events).crashed
      {
        AtomicIsNeverEarly(events);
        ReaperSafe(atomic, events);
      }
    } else {
      var events := ReapedTooEarly();
    }
  }
}
