/** That finished workers are reaped while the server runs: in runs that never ask too early a worker that has pushed
    its iterator is in hand until it is joined, and a joined one's node does not stay. */
module ReaperProgress {
  import opened ReaperProtocol
  import opened ReaperSafety
  import opened ReaperHandles
  import opened ReaperLiveness

  /** The worker has announced its end and is not joined yet. */
  predicate Due(s: State, i: nat) {
    i in s.workers && HasPushed(s.workers[i]) && Joins(s, i) == 0
  }

  /** Its iterator is queued, or the reaper has popped it to join it. */
  predicate InHand(s: State, i: nat) {
    i in s.queue || ((s.reaper.Reaping? || s.reaper.Joining?) && s.reaper.node == i)
  }

  /** The worker is joined, and its node is still listed. */
  predicate Left(s: State, i: nat) {
    i in s.nodes && Joins(s, i) != 0
  }

  /** The reaper is about to erase the node, or the destructor to clear the list. */
  predicate Going(s: State, i: nat) {
    ((s.reaper.Erasing? || s.reaper.Erased?) && s.reaper.node == i) || PastReaper(s.main)
  }

  ghost predicate Tended(s: State) {
    && (forall i :: Due(s, i) ==> InHand(s, i))
    && (forall i :: Left(s, i) ==> Going(s, i))
  }

  // ------------------------------------------------------------------ what a step keeps

  lemma TendedSame(s: State, s': State)
    requires Tended(s) && (PastReaper(s.main) ==> PastReaper(s'.main))
    requires s'.queue == s.queue
    requires s'.reaper == s.reaper || (!HoldsNode(s.reaper) && !HoldsNode(s'.reaper))
    requires forall i :: Due(s', i) ==> Due(s, i)
    requires forall i :: Left(s', i) ==> Left(s, i) || PastReaper(s'.main)
    ensures Tended(s')
  {
    forall i | Due(s', i)
      ensures InHand(s', i)
    {
      assert InHand(s, i);
    }
    forall i | Left(s', i)
      ensures Going(s', i)
    {
      assert Left(s, i) ==> Going(s, i);
    }
  }

  lemma MainOwes(atomic: bool, s: State, i: nat)
    requires Threads(s) && Enabled(s, MainStep)
    ensures Due(MainMove(atomic, s), i) ==> Due(s, i)
    ensures Left(MainMove(atomic, s), i) ==> Left(s, i) || PastReaper(MainMove(atomic, s).main)
  {
    if s.main.JoiningRest? {
      return;
    }
    if s.main.Growing? {
      assert Joins(s, s.nextNode) == 0;
      return;
    }
    if s.main.Spawning? || s.main.Storing? {
      assert Joins(s, s.main.node) == 0;
      return;
    }
    MainLeavesWorkersAlone(atomic, s);
  }

  lemma MainStaysPast(atomic: bool, s: State)
    ensures PastReaper(s.main) ==> PastReaper(MainMove(atomic, s).main)
  {
    if !PastReaper(s.main) { return; }
  }

  lemma MainTends(atomic: bool, s: State)
    requires Threads(s) && Tended(s) && Enabled(s, MainStep)
    ensures Tended(MainMove(atomic, s))
  {
    var s' := MainMove(atomic, s);
    MainLeavesReaper(atomic, s);
    MainStaysPast(atomic, s);
    forall i
      ensures (Due(s', i) ==> Due(s, i)) && (Left(s', i) ==> Left(s, i) || PastReaper(s'.main))
    {
      MainOwes(atomic, s, i);
    }
    TendedSame(s, s');
  }

  lemma PopTends(s: State)
    requires Tended(s) && s.reaper.Draining?
    ensures Tended(ReaperMove(s))
  {
    var s' := ReaperMove(s);
    assert forall i :: Due(s', i) == Due(s, i) && Left(s', i) == Left(s, i) && Going(s', i) == Going(s, i);
    if s.queue != [] {
      assert forall i :: i in s.queue <==> i == s.queue[0] || i in s.queue[1..];
    }
  }

  /** What the reaper has popped it finds joinable, unless it asks too early. */
  lemma AskTends(s: State)
    requires Handles(s) && Tended(s) && s.reaper.Reaping? && !EarlyReap(s, ReaperStep)
    ensures Tended(ReaperMove(s))
  {
    var s' := ReaperMove(s);
    assert s'.reaper == Joining(s.reaper.node);
    assert forall i :: Due(s', i) == Due(s, i) && Left(s', i) == Left(s, i) && Going(s', i) == Going(s, i);
  }

  lemma JoinTends(s: State)
    requires Tended(s) && s.reaper.Joining?
    ensures Tended(ReaperMove(s))
  {
    var s', n := ReaperMove(s), s.reaper.node;
    assert forall i :: i != n ==> Due(s', i) == Due(s, i) && (Left(s', i) ==> Left(s, i));
    assert !Due(s', n) && Going(s', n);
  }

  lemma EraseTends(s: State)
    requires Tended(s) && (s.reaper.Erasing? || s.reaper.Erased?)
    ensures Tended(ReaperMove(s))
  {
    var s', n := ReaperMove(s), s.reaper.node;
    assert forall i :: Due(s', i) == Due(s, i) && (Left(s', i) ==> Left(s, i) && (s.reaper.Erased? ==> i != n));
  }

  lemma OutsideTends(s: State)
    requires Tended(s) && !HoldsNode(s.reaper) && !s.reaper.Draining?
    ensures Tended(ReaperMove(s))
  {
    ReaperLeaves(s);
    var s' := ReaperMove(s);
    assert forall i :: Due(s', i) == Due(s, i) && Left(s', i) == Left(s, i);
    TendedSame(s, s');
  }

  lemma ReaperTends(s: State)
    requires Handles(s) && Tended(s) && Enabled(s, ReaperStep) && !EarlyReap(s, ReaperStep)
    ensures Tended(ReaperMove(s))
  {
    match s.reaper
    case Draining => PopTends(s);
    case Reaping(_) => AskTends(s);
    case Joining(_) => JoinTends(s);
    case Erasing(_) => EraseTends(s);
    case Erased(_) => EraseTends(s);
    case _ => OutsideTends(s);
  }

  lemma WorkerTends(s: State, i: nat)
    requires Tended(s) && Enabled(s, WorkerStep(i))
    ensures Tended(WorkerMove(s, i))
  {
    var s' := WorkerMove(s, i);
    WorkerLeaves(s, i);
    WorkerLeavesRest(s, i);
    WorkerDue(s, i);
    forall j | Due(s', j)
      ensures InHand(s', j)
    {
      assert Due(s, j) ==> InHand(s, j);
    }
    forall j | Left(s', j)
      ensures Going(s', j)
    {
      assert Left(s, j);
    }
  }

  /** Only the push makes a worker due. */
  lemma WorkerDue(s: State, i: nat)
    requires Enabled(s, WorkerStep(i))
    ensures forall j :: Due(WorkerMove(s, i), j) ==> Due(s, j) || (j == i && s.workers[i].Pushing?)
  {
    WorkerLeaves(s, i);
    assert HasPushed(WorkerMove(s, i).workers[i]) ==> HasPushed(s.workers[i]) || s.workers[i].Pushing?;
    assert forall j :: Joins(WorkerMove(s, i), j) == Joins(s, j);
  }

  lemma EventTends(atomic: bool, s: State, e: Event)
    requires Inv(s) && Tended(s) && !EarlyReap(s, e)
    ensures Tended(Next(atomic, s, e))
  {
    if !Enabled(s, e) { return; }
    match e
    case MainStep => MainTends(atomic, s);
    case SpawnFails => TendedSame(s, Next(atomic, s, e));
    case ReaperStep => ReaperTends(s);
    case SpuriousWake => TendedSame(s, Next(atomic, s, e));
    case WorkerStep(i) => WorkerTends(s, i);
  }

  // ------------------------------------------------------------------ every run that never asks too early

  lemma {:induction false} RunTended(atomic: bool, events: seq<Event>)
    requires NeverEarly(atomic, events)
    ensures Tended(After(atomic, events))
    decreases |events|
  {
    if events == [] { return; }
    var n := |events| - 1;
    NeverEarlyBefore(atomic, events);
    RunTended(atomic, events[..n]);
    RunIntact(atomic, events[..n]);
    assert !EarlyReap(After(atomic, events[..n]), events[n]);
    EventTends(atomic, After(atomic, events[..n]), events[n]);
  }

  /** The worker serves its client; or it has exited, was joined exactly once, and its node is erased. */
  predicate ServingOrReaped(s: State, i: nat) {
    i in s.workers && (s.workers[i] == Serving || (s.workers[i] == Exited && Joins(s, i) == 1 && i !in s.nodes))
  }

  lemma RestIsReaped(s: State, i: nat)
    requires Base(s) && Tended(s) && !s.stop && AtRest(s) && i in s.workers && !Internal(s, WorkerStep(i))
    requires s.queueLock == Nobody
    ensures ServingOrReaped(s, i)
  {
    if s.workers[i] == Serving { return; }
    assert s.workers[i] == Exited;
    assert !Due(s, i) by {
      assert Due(s, i) ==> InHand(s, i);
    }
    assert Left(s, i) ==> Going(s, i);
  }

  /** While the server runs its finished workers are reaped: with the stop flag clear and no step left that a thread can
      take by itself, every worker serves a client, or has exited, was joined exactly once and has left the list. */
  lemma FinishedAreReaped(atomic: bool, events: seq<Event>)
    requires NeverEarly(atomic, events)
    ensures var s := After(atomic, events);
            !s.stop && (forall e :: !Internal(s, e)) ==> forall i :: i in s.workers ==> ServingOrReaped(s, i)
  {
    var s := After(atomic, events);
    RunTended(atomic, events);
    RunKeeps(atomic, events);
    NoDeadlock(atomic, events);
    if !s.stop && (forall e :: !Internal(s, e)) {
      if s.queueLock != Nobody {
        var e := LockHolderMoves(s);
      }
      forall i | i in s.workers
        ensures ServingOrReaped(s, i)
      {
        RestIsReaped(s, i);
      }
    }
  }

  /** And that state is reached in boundedly many such steps. */
  lemma ReapedInTime(atomic: bool, before: seq<Event>, events: seq<Event>)
    requires InternalRun(atomic, After(atomic, before), events) && NeverEarly(atomic, before + events)
    ensures |events| <= Rank(After(atomic, before))
    ensures var s := After(atomic, before + events);
            !s.stop && (forall e :: !Internal(s, e)) ==> forall i :: i in s.workers ==> ServingOrReaped(s, i)
  {
    RunKeeps(atomic, before);
    InternalRunsEnd(atomic, After(atomic, before), events);
    FinishedAreReaped(atomic, before + events);
  }
}
