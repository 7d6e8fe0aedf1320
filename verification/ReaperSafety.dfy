/** What every reachable state of the thread protocol satisfies, whether or not creating a thread and storing its
    handle are one step: who holds the locks, which threads the handles and the queue name, and that no wake-up is
    lost. */
module ReaperSafety {
  import opened ReaperProtocol

  // ------------------------------------------------------------------ who holds the locks

  predicate ReaperLocks(p: ReaperPoint) {
    p.Checking? || p.Draining? || p.Reaping? || p.Joining? || p.Erasing? || p.Erased? || p.Unlocking?
  }

  predicate WorkerLocks(p: WorkerPoint) {
    p.Pushing? || p.Signalling? || p.Releasing?
  }

  predicate MainListLocks(p: MainPoint) {
    p.Growing? || p.Spawning? || p.Storing? || p.Accepted? || p.JoiningRest?
  }

  ghost predicate Locks(s: State) {
    && (s.queueLock == Reaper <==> ReaperLocks(s.reaper))
    && (s.queueLock == Main <==> s.main.Notifying? || s.main.Notified?)
    && (forall i :: s.queueLock == Worker(i) <==> i in s.workers && WorkerLocks(s.workers[i]))
    && (s.listLock == Main <==> MainListLocks(s.main))
    && (s.listLock == Reaper <==> s.reaper.Erased?)
    && !s.listLock.Worker?
  }

  // ------------------------------------------------------------------ handles and workers

  function Joins(s: State, i: nat): nat {
    if i in s.joins then s.joins[i] else 0
  }

  predicate Owned(s: State, i: nat) {
    i in s.nodes && s.nodes[i] == Owns
  }

  /** An owned handle is that of a worker not joined yet; a joined worker has exited, and was joined once. */
  ghost predicate Threads(s: State) {
    && (forall i :: i in s.workers ==> i < s.nextNode)
    && (forall i :: i in s.nodes ==> i < s.nextNode)
    && (forall i :: Owned(s, i) ==> i in s.workers && Joins(s, i) == 0)
    && (forall i :: Joins(s, i) != 0 ==> i in s.workers && Joins(s, i) == 1 && s.workers[i] == Exited)
    && (s.main.Spawning? ==> s.main.node < s.nextNode && s.main.node !in s.workers)
    && (s.main.Storing? ==> s.main.node in s.workers && Joins(s, s.main.node) == 0 && !Owned(s, s.main.node))
  }

  predicate HasPushed(p: WorkerPoint) {
    p.Signalling? || p.Releasing? || p.Returning? || p.Exited?
  }

  predicate HoldsNode(p: ReaperPoint) {
    p.Reaping? || p.Joining? || p.Erasing? || p.Erased?
  }

  /** Queued iterators are distinct, and they and the one the reaper has popped are those of workers that have pushed
      them; a handle the reaper joins is owned. */
  ghost predicate Queue(s: State) {
    && (forall i, j :: 0 <= i < j < |s.queue| ==> s.queue[i] != s.queue[j])
    && (forall i :: i in s.queue ==> i in s.workers && HasPushed(s.workers[i]))
    && (HoldsNode(s.reaper) ==>
          var i := s.reaper.node; i !in s.queue && i in s.workers && HasPushed(s.workers[i]))
    && (s.reaper.Joining? ==> Owned(s, s.reaper.node))
  }

  // ------------------------------------------------------------------ stopping and waking

  predicate PastStop(p: MainPoint) {
    p.Waking? || p.Notifying? || p.Notified? || p.JoiningReaper? || p.Closing? || p.JoiningRest? || p.Over?
  }

  predicate PastReaper(p: MainPoint) {
    p.Closing? || p.JoiningRest? || p.Over?
  }

  ghost predicate Shutdown(s: State) {
    && (s.stop <==> PastStop(s.main))
    && (s.reaper.Finished? ==> s.stop)
    && (PastReaper(s.main) ==> s.reaper.Finished?)
  }

  /** The reaper sleeps only with an empty queue and a clear stop flag, or a notify is still due. */
  ghost predicate NoLostWakeup(s: State) {
    s.reaper.Sleeping? ==>
      && (s.queue == [] ||
          (s.queueLock.Worker? && s.queueLock.id in s.workers && s.workers[s.queueLock.id].Signalling?))
      && (!s.stop || s.main.Waking? || s.main.Notifying?)
  }

  ghost predicate Base(s: State) {
    Locks(s) && Threads(s) && Queue(s) && Shutdown(s) && NoLostWakeup(s)
  }

  // ------------------------------------------------------------------ what a step leaves alone

  /** Threads depend on the list, the workers and the joins, and on little else. */
  lemma ThreadsSame(s: State, s': State)
    requires Threads(s) && (s'.main == s.main || (!s'.main.Spawning? && !s'.main.Storing?))
    requires s'.workers == s.workers && s'.nodes == s.nodes && s'.joins == s.joins && s'.nextNode == s.nextNode
    ensures Threads(s')
  {
    assert forall j :: Joins(s', j) == Joins(s, j) && Owned(s', j) == Owned(s, j);
  }

  /** Joining an exited worker whose handle is owned. */
  lemma JoinKeepsThreads(s: State, i: nat)
    requires Threads(s) && Owned(s, i) && HasExited(s, i)
    ensures Threads(Join(s, i))
  {
    var s' := Join(s, i);
    assert forall j :: j != i ==> Joins(s', j) == Joins(s, j) && Owned(s', j) == Owned(s, j);
  }

  lemma EraseKeepsThreads(s: State, i: nat)
    requires Threads(s)
    ensures Threads(s.(nodes := s.nodes - {i}))
  {
    var s' := s.(nodes := s.nodes - {i});
    assert forall j :: Joins(s', j) == Joins(s, j) && (Owned(s', j) ==> Owned(s, j));
  }

  // ------------------------------------------------------------------ the main thread

  lemma AcceptingKeepsLocks(atomic: bool, s: State)
    requires Locks(s) && Threads(s) && Enabled(s, MainStep) && MainListLocks(s.main)
    ensures Locks(MainMove(atomic, s))
  {
    match s.main
    case Growing =>
    case Spawning(_) => SpawningKeepsLocks(atomic, s);
    case Storing(_) =>
    case Accepted =>
    case JoiningRest => RestKeepsLocks(atomic, s);
  }

  lemma SpawningKeepsLocks(atomic: bool, s: State)
    requires Locks(s) && Threads(s) && s.main.Spawning?
    ensures Locks(MainMove(atomic, s))
  {
  }

  lemma RestKeepsLocks(atomic: bool, s: State)
    requires Locks(s) && s.main.JoiningRest?
    ensures Locks(MainMove(atomic, s))
  {
  }

  lemma StoppingKeepsLocks(atomic: bool, s: State)
    requires Locks(s) && Enabled(s, MainStep) && !MainListLocks(s.main)
    ensures Locks(MainMove(atomic, s))
  {
    match s.main
    case Accepting =>
    case Stopping =>
    case Waking =>
    case Notifying =>
    case Notified =>
    case JoiningReaper =>
    case Closing =>
  }

  lemma MainKeepsLocks(atomic: bool, s: State)
    requires Locks(s) && Threads(s) && Shutdown(s) && Enabled(s, MainStep)
    ensures Locks(MainMove(atomic, s))
  {
    if MainListLocks(s.main) {
      AcceptingKeepsLocks(atomic, s);
    } else {
      StoppingKeepsLocks(atomic, s);
    }
  }

  lemma MainKeepsShutdown(atomic: bool, s: State)
    requires Shutdown(s) && Enabled(s, MainStep)
    ensures Shutdown(MainMove(atomic, s))
  {
    if MainListLocks(s.main) {
      return;
    }
  }

  lemma MainKeepsWakeup(atomic: bool, s: State)
    requires Base(s) && Enabled(s, MainStep)
    ensures NoLostWakeup(MainMove(atomic, s))
  {
    if MainListLocks(s.main) {
      return;
    }
  }

  lemma MainKeepsThreads(atomic: bool, s: State)
    requires Threads(s) && Enabled(s, MainStep)
    ensures Threads(MainMove(atomic, s))
  {
    match s.main
    case JoiningRest => RestKeepsThreads(atomic, s);
    case Growing => GrowingKeepsThreads(atomic, s);
    case Spawning(i) => SpawningKeepsThreads(atomic, s);
    case Storing(i) => StoringKeepsThreads(atomic, s);
    case _ => ThreadsSame(s, MainMove(atomic, s));
  }

  lemma RestKeepsThreads(atomic: bool, s: State)
    requires Threads(s) && s.main.JoiningRest? && Enabled(s, MainStep)
    ensures Threads(MainMove(atomic, s))
  {
    if i: nat :| FirstJoinable(s, i) && MainMove(atomic, s) == Join(s, i) {
      JoinKeepsThreads(s, i);
    } else {
      ThreadsSame(s, MainMove(atomic, s));
    }
  }

  lemma GrowingKeepsThreads(atomic: bool, s: State)
    requires Threads(s) && s.main.Growing?
    ensures Threads(MainMove(atomic, s))
  {
    var s' := MainMove(atomic, s);
    assert forall j :: Joins(s', j) == Joins(s, j) && (Owned(s', j) ==> Owned(s, j));
  }

  lemma SpawningKeepsThreads(atomic: bool, s: State)
    requires Threads(s) && s.main.Spawning?
    ensures Threads(MainMove(atomic, s))
  {
    var s', i := MainMove(atomic, s), s.main.node;
    assert forall j :: Joins(s', j) == Joins(s, j) && (j != i ==> Owned(s', j) == Owned(s, j));
    assert Joins(s, i) == 0;
  }

  lemma StoringKeepsThreads(atomic: bool, s: State)
    requires Threads(s) && s.main.Storing?
    ensures Threads(MainMove(atomic, s))
  {
    var s', i := MainMove(atomic, s), s.main.node;
    assert forall j :: Joins(s', j) == Joins(s, j) && (j != i ==> Owned(s', j) == Owned(s, j));
  }

  /** The main thread does not touch the queue, and wakes the reaper at most. */
  lemma MainLeavesReaper(atomic: bool, s: State)
    ensures var s' := MainMove(atomic, s);
            && s'.queue == s.queue
            && (s'.reaper == s.reaper || (s.reaper.Sleeping? && s'.reaper.Woken?))
  {
    if s.main.Notifying? || s.main.JoiningRest? || s.main.Storing? {
      return;
    }
  }

  lemma MainLeavesWorkers(atomic: bool, s: State)
    requires Threads(s)
    ensures var s' := MainMove(atomic, s);
            forall i :: i in s.workers ==> i in s'.workers && s'.workers[i] == s.workers[i]
  {
    if MainListLocks(s.main) {
      return;
    }
  }

  lemma MainLeavesOwned(atomic: bool, s: State, i: nat)
    requires Shutdown(s) && Threads(s) && Enabled(s, MainStep) && !s.reaper.Finished? && Owned(s, i)
    ensures Owned(MainMove(atomic, s), i)
  {
    if MainListLocks(s.main) {
      return;
    }
  }

  /** A step of the main thread, which does not touch the queue. */
  lemma QueueOfMain(s: State, s': State)
    requires Queue(s) && s'.queue == s.queue && (s'.reaper == s.reaper || (s.reaper.Sleeping? && s'.reaper.Woken?))
    requires forall i :: i in s.workers ==> i in s'.workers && s'.workers[i] == s.workers[i]
    requires s.reaper.Joining? ==> Owned(s', s.reaper.node)
    ensures Queue(s')
  {
  }

  lemma MainKeepsQueue(atomic: bool, s: State)
    requires Shutdown(s) && Threads(s) && Queue(s) && Enabled(s, MainStep)
    ensures Queue(MainMove(atomic, s))
  {
    MainLeavesReaper(atomic, s);
    MainLeavesWorkers(atomic, s);
    if s.reaper.Joining? {
      MainLeavesOwned(atomic, s, s.reaper.node);
    }
    QueueOfMain(s, MainMove(atomic, s));
  }

  lemma MainKeeps(atomic: bool, s: State)
    requires Base(s) && Enabled(s, MainStep)
    ensures Base(MainMove(atomic, s))
  {
    MainKeepsLocks(atomic, s);
    MainKeepsThreads(atomic, s);
    MainKeepsQueue(atomic, s);
    MainKeepsShutdown(atomic, s);
    MainKeepsWakeup(atomic, s);
  }

  // ------------------------------------------------------------------ the reaper

  lemma InsideKeepsLocks(s: State)
    requires Locks(s) && Enabled(s, ReaperStep) && (HoldsNode(s.reaper) || s.reaper.Draining?)
    ensures Locks(ReaperMove(s))
  {
    match s.reaper
    case Draining =>
    case Reaping(_) =>
    case Joining(_) =>
    case Erasing(_) =>
    case Erased(_) =>
  }

  lemma OutsideKeepsLocks(s: State)
    requires Locks(s) && Enabled(s, ReaperStep) && !HoldsNode(s.reaper) && !s.reaper.Draining?
    ensures Locks(ReaperMove(s))
  {
    match s.reaper
    case Testing =>
    case Locking =>
    case Woken =>
    case Checking =>
    case Unlocking =>
  }

  lemma ReaperKeepsLocks(s: State)
    requires Locks(s) && Enabled(s, ReaperStep)
    ensures Locks(ReaperMove(s))
  {
    if HoldsNode(s.reaper) || s.reaper.Draining? {
      InsideKeepsLocks(s);
    } else {
      OutsideKeepsLocks(s);
    }
  }

  lemma ReaperKeepsWakeup(s: State)
    requires Locks(s) && NoLostWakeup(s) && Enabled(s, ReaperStep)
    ensures NoLostWakeup(ReaperMove(s))
  {
    if HoldsNode(s.reaper) {
      return;
    }
  }

  lemma ReaperKeepsShutdown(s: State)
    requires Shutdown(s) && Enabled(s, ReaperStep)
    ensures Shutdown(ReaperMove(s))
  {
    if ReaperLocks(s.reaper) {
      return;
    }
  }

  /** Most steps of the reaper change its own point and the locks only. */
  lemma ReaperLeaves(s: State)
    requires !s.reaper.Joining? && !s.reaper.Erased? && !s.reaper.Draining?
    ensures var s' := ReaperMove(s);
            && s'.main == s.main && s'.workers == s.workers && s'.nodes == s.nodes && s'.joins == s.joins
            && s'.queue == s.queue && s'.nextNode == s.nextNode && s'.crashed == s.crashed
  {
    match s.reaper
    case Testing =>
    case Locking =>
    case Woken =>
    case Checking =>
    case Sleeping =>
    case Reaping(_) =>
    case Erasing(_) =>
    case Unlocking =>
    case Finished =>
  }

  lemma ReaperKeepsThreads(s: State)
    requires Threads(s) && Queue(s) && Enabled(s, ReaperStep)
    ensures Threads(ReaperMove(s))
  {
    match s.reaper
    case Joining(_) => ReaperSpendsHandle(s);
    case Erased(_) => ReaperSpendsHandle(s);
    case Draining => ThreadsSame(s, ReaperMove(s));
    case _ =>
      ReaperLeaves(s);
      ThreadsSame(s, ReaperMove(s));
  }

  /** Joining a worker, and erasing its node. */
  lemma ReaperSpendsHandle(s: State)
    requires Threads(s) && Queue(s) && Enabled(s, ReaperStep) && (s.reaper.Joining? || s.reaper.Erased?)
    ensures Threads(ReaperMove(s))
  {
    var i := s.reaper.node;
    if s.reaper.Joining? {
      JoinKeepsThreads(s, i);
      ThreadsSame(Join(s, i), ReaperMove(s));
    } else {
      EraseKeepsThreads(s, i);
      ThreadsSame(s.(nodes := s.nodes - {i}), ReaperMove(s));
    }
  }

  lemma PopKeepsQueue(s: State)
    requires Queue(s) && s.reaper.Draining?
    ensures Queue(ReaperMove(s))
  {
    if s.queue != [] {
      assert forall i :: i in s.queue <==> i == s.queue[0] || i in s.queue[1..];
    }
  }

  /** A step of the reaper that pops nothing. */
  lemma QueueOfReaper(s: State, s': State)
    requires Queue(s) && s'.queue == s.queue && s'.workers == s.workers
    requires HoldsNode(s'.reaper) ==> HoldsNode(s.reaper) && s'.reaper.node == s.reaper.node
    requires s'.reaper.Joining? ==> Owned(s', s'.reaper.node)
    ensures Queue(s')
  {
  }

  lemma ReaperKeepsQueue(s: State)
    requires Queue(s) && Enabled(s, ReaperStep)
    ensures Queue(ReaperMove(s))
  {
    if s.reaper.Draining? {
      PopKeepsQueue(s);
    } else {
      QueueOfReaper(s, ReaperMove(s));
    }
  }

  lemma ReaperKeeps(s: State)
    requires Base(s) && Enabled(s, ReaperStep)
    ensures Base(ReaperMove(s))
  {
    ReaperKeepsLocks(s);
    ReaperKeepsWakeup(s);
    ReaperKeepsThreads(s);
    ReaperKeepsShutdown(s);
    ReaperKeepsQueue(s);
  }

  // ------------------------------------------------------------------ the workers

  lemma WorkerKeepsLocks(s: State, i: nat)
    requires Locks(s) && Enabled(s, WorkerStep(i))
    ensures Locks(WorkerMove(s, i))
  {
    if s.workers[i].Leaving? || s.workers[i].Releasing? {
      WorkerTurnsLock(s, i);
    } else {
      WorkerLeavesLocks(s, i);
    }
  }

  lemma WorkerTurnsLock(s: State, i: nat)
    requires Locks(s) && Enabled(s, WorkerStep(i)) && (s.workers[i].Leaving? || s.workers[i].Releasing?)
    ensures Locks(WorkerMove(s, i))
  {
  }

  lemma WorkerLeavesLocks(s: State, i: nat)
    requires Locks(s) && Enabled(s, WorkerStep(i)) && !s.workers[i].Leaving? && !s.workers[i].Releasing?
    ensures Locks(WorkerMove(s, i))
  {
  }

  lemma WorkerKeepsWakeup(s: State, i: nat)
    requires Locks(s) && NoLostWakeup(s) && Enabled(s, WorkerStep(i))
    ensures NoLostWakeup(WorkerMove(s, i))
  {
    if s.workers[i].Signalling? || s.workers[i].Pushing? {
      return;
    }
  }

  lemma WorkerLeaves(s: State, i: nat)
    requires i in s.workers
    ensures var s' := WorkerMove(s, i);
            && i in s'.workers && s'.workers == s.workers[i := s'.workers[i]]
            && s'.nodes == s.nodes && s'.joins == s.joins && s'.nextNode == s.nextNode && s'.main == s.main
  {
    if s.workers[i].Signalling? || s.workers[i].Pushing? || s.workers[i].Releasing? {
      return;
    }
  }

  lemma WorkerKeepsThreads(s: State, i: nat)
    requires Threads(s) && Enabled(s, WorkerStep(i))
    ensures Threads(WorkerMove(s, i))
  {
    var s' := WorkerMove(s, i);
    WorkerLeaves(s, i);
    assert s'.workers.Keys == s.workers.Keys;
    forall j
      ensures Joins(s', j) == Joins(s, j) && Owned(s', j) == Owned(s, j)
      ensures j in s'.workers && j != i ==> s'.workers[j] == s.workers[j]
    {
    }
  }

  lemma WorkerKeepsShutdown(s: State, i: nat)
    requires Shutdown(s) && Enabled(s, WorkerStep(i))
    ensures Shutdown(WorkerMove(s, i))
  {
  }

  lemma PushKeepsQueue(s: State, i: nat)
    requires Locks(s) && Queue(s) && i in s.workers && s.workers[i].Pushing?
    ensures Queue(WorkerMove(s, i))
  {
  }

  /** A worker that moves on without pushing. */
  lemma QueueOfWorker(s: State, s': State, i: nat)
    requires Queue(s) && i in s.workers && i in s'.workers && s'.workers == s.workers[i := s'.workers[i]]
    requires HasPushed(s.workers[i]) ==> HasPushed(s'.workers[i])
    requires s'.nodes == s.nodes && s'.queue == s.queue
    requires s'.reaper == s.reaper || (s.reaper.Sleeping? && s'.reaper.Woken?)
    ensures Queue(s')
  {
  }

  lemma WorkerKeepsQueue(s: State, i: nat)
    requires Locks(s) && Queue(s) && Enabled(s, WorkerStep(i))
    ensures Queue(WorkerMove(s, i))
  {
    if s.workers[i].Pushing? {
      PushKeepsQueue(s, i);
    } else {
      WorkerLeaves(s, i);
      QueueOfWorker(s, WorkerMove(s, i), i);
    }
  }

  lemma WorkerKeeps(s: State, i: nat)
    requires Base(s) && Enabled(s, WorkerStep(i))
    ensures Base(WorkerMove(s, i))
  {
    WorkerKeepsLocks(s, i);
    WorkerKeepsWakeup(s, i);
    WorkerKeepsThreads(s, i);
    WorkerKeepsShutdown(s, i);
    WorkerKeepsQueue(s, i);
  }

  // ------------------------------------------------------------------ every run

  lemma SpawnFailsKeeps(atomic: bool, s: State)
    requires Base(s) && Enabled(s, SpawnFails)
    ensures Base(Next(atomic, s, SpawnFails))
  {
    ThreadsSame(s, Next(atomic, s, SpawnFails));
  }

  lemma SpuriousWakeKeeps(atomic: bool, s: State)
    requires Base(s) && Enabled(s, SpuriousWake)
    ensures Base(Next(atomic, s, SpuriousWake))
  {
    ThreadsSame(s, Next(atomic, s, SpuriousWake));
  }

  lemma StepKeeps(atomic: bool, s: State, e: Event)
    requires Base(s)
    ensures Base(Next(atomic, s, e))
  {
    if !Enabled(s, e) { return; }
    match e
    case MainStep => MainKeeps(atomic, s);
    case SpawnFails => SpawnFailsKeeps(atomic, s);
    case ReaperStep => ReaperKeeps(s);
    case SpuriousWake => SpuriousWakeKeeps(atomic, s);
    case WorkerStep(i) => WorkerKeeps(s, i);
  }

  lemma {:induction false} RunKeeps(atomic: bool, events: seq<Event>)
    ensures Base(After(atomic, events))
    decreases |events|
  {
    if events != [] {
      RunKeeps(atomic, events[..|events| - 1]);
      StepKeeps(atomic, After(atomic, events[..|events| - 1]), events[|events| - 1]);
    }
  }

  // ------------------------------------------------------------------ theorems

  /** In every run of either program: no worker is joined twice or before it has exited, queued iterators are distinct,
      and locks are nested queue before list. */
  lemma LocksAndJoins(atomic: bool, events: seq<Event>)
    ensures var s := After(atomic, events);
            && (forall i :: Joins(s, i) <= 1 && (Joins(s, i) == 1 ==> HasExited(s, i)))
            && (forall i, j :: 0 <= i < j < |s.queue| ==> s.queue[i] != s.queue[j])
            && (s.listLock == Reaper ==> s.queueLock == Reaper)
            && !(s.listLock == Main && s.queueLock == Main)
  {
    RunKeeps(atomic, events);
  }

  /** A worker the reaper is to join has released the queue lock that the reaper holds. */
  lemma JoinedWorkerHasLetGo(atomic: bool, events: seq<Event>)
    requires After(atomic, events).reaper.Joining?
    ensures var s := After(atomic, events);
            s.queueLock == Reaper && s.reaper.node in s.workers && !WorkerLocks(s.workers[s.reaper.node])
            && !s.workers[s.reaper.node].Serving? && !s.workers[s.reaper.node].Leaving?
  {
    RunKeeps(atomic, events);
  }

  lemma NeverAsleepForNothing(atomic: bool, events: seq<Event>)
    ensures NoLostWakeup(After(atomic, events))
  {
    RunKeeps(atomic, events);
  }
}
