/** Whether or not creating a thread and storing its handle are one step: the threads never block each other for good,
    and shutting down takes a bounded number of steps. */
module ReaperLiveness {
  import opened ReaperProtocol
  import opened ReaperSafety
  import opened ReaperHandles

  /** A step a thread can take by itself: no connection has to be made or ended for it, nothing fails, and no thread is
      woken for no reason. */
  ghost predicate Internal(s: State, e: Event) {
    Enabled(s, e) &&
    match e
    case MainStep => !s.main.Accepting?
    case ReaperStep => true
    case WorkerStep(i) => i in s.workers && !s.workers[i].Serving?
    case _ => false
  }

  /** Nothing is left to do until a client comes or goes: the acceptor waits for a connection and the reaper for a
      worker; or the destructor waits for a worker whose client is still connected; or all is over. */
  ghost predicate AtRest(s: State) {
    || (s.main.Accepting? && s.reaper.Sleeping? && s.queue == [] && !s.stop)
    || (s.main.JoiningRest? && exists i: nat :: FirstJoinable(s, i) && i in s.workers && s.workers[i].Serving?)
    || s.main.Over?
  }

  // ------------------------------------------------------------------ no deadlock

  lemma LockHolderMoves(s: State) returns (e: Event)
    requires Base(s) && s.queueLock != Nobody
    ensures Internal(s, e)
  {
    match s.queueLock
    case Main => e := MainStep;
    case Worker(i) => e := WorkerStep(i);
    case Reaper =>
      if s.reaper.Joining? && !HasExited(s, s.reaper.node) {
        e := WorkerStep(s.reaper.node);
      } else if s.reaper.Erasing? && s.listLock != Nobody {
        e := MainStep;
      } else {
        e := ReaperStep;
      }
  }

  lemma FreeQueueMoves(s: State) returns (e: Event)
    requires Base(s) && s.queueLock == Nobody && !AtRest(s)
    ensures Internal(s, e)
  {
    if !s.reaper.Sleeping? && !s.reaper.Finished? {
      e := ReaperStep;
    } else if s.main.JoiningRest? {
      if i: nat :| FirstJoinable(s, i) && !HasExited(s, i) {
        e := WorkerStep(i);
      } else {
        e := MainStep;
      }
    } else {
      e := MainStep;
    }
  }

  /** In every reachable state some thread can go on by itself, or nothing is left to do: no deadlock between locks and
      joins. */
  lemma NoDeadlock(atomic: bool, events: seq<Event>)
    ensures var s := After(atomic, events); AtRest(s) || exists e :: Internal(s, e)
  {
    RunKeeps(atomic, events);
    var s := After(atomic, events);
    if !AtRest(s) {
      var e;
      if s.queueLock != Nobody { e := LockHolderMoves(s); } else { e := FreeQueueMoves(s); }
    }
  }

  // ------------------------------------------------------------------ a measure

  /** Steps the reaper still makes from the wait predicate on. */
  function CheckRank(s: State): nat {
    if s.stop then 4 else if s.queue == [] then 1 else 6
  }

  function ReaperRank(s: State): nat {
    match s.reaper
    case Finished => 0
    case Sleeping => 0
    case Checking => CheckRank(s)
    case Locking => CheckRank(s) + 1
    case Woken => CheckRank(s) + 1
    case Testing => if s.stop then 1 else CheckRank(s) + 2
    case Unlocking => if s.stop then 2 else CheckRank(s) + 3
    case Draining => if s.stop then 3 else 5
    case Erased(_) => if s.stop then 4 else 6
    case Erasing(_) => if s.stop then 5 else 7
    case Joining(_) => if s.stop then 6 else 8
    case Reaping(_) => if s.stop then 7 else 9
  }

  function MainRank(p: MainPoint): nat {
    match p
    case Accepting => 0
    case Accepted => 1
    case Storing(_) => 2
    case Spawning(_) => 4
    case Growing => 5
    case Over => 0
    case JoiningRest => 1
    case Closing => 2
    case JoiningReaper => 3
    case Notified => 4
    case Notifying => 10
    case Waking => 11
    case Stopping => 15
  }

  function WorkerRank(p: WorkerPoint): nat {
    match p
    case Serving => 0
    case Leaving => 22
    case Pushing => 21
    case Signalling => 10
    case Releasing => 2
    case Returning => 1
    case Exited => 0
  }

  /** A worker counts for its own steps and for being joined. */
  function Weight(s: State, i: nat): nat {
    if i in s.workers then WorkerRank(s.workers[i]) + (if Joins(s, i) == 0 then 1 else 0) else 0
  }

  function Weights(s: State, n: nat): nat {
    if n == 0 then 0 else Weights(s, n - 1) + Weight(s, n - 1)
  }

  /** The work in front of the reaper. */
  function Work(s: State): nat {
    ReaperRank(s) + 5 * |s.queue|
  }

  function Rank(s: State): nat {
    Work(s) + MainRank(s.main) + Weights(s, s.nextNode)
  }

  lemma {:induction false} WeightsSame(s: State, s': State, n: nat)
    requires forall i: nat :: i < n ==> Weight(s, i) == Weight(s', i)
    ensures Weights(s, n) == Weights(s', n)
    decreases n
  {
    if n > 0 {
      WeightsSame(s, s', n - 1);
    }
  }

  lemma {:induction false} WeightsChange(s: State, s': State, n: nat, k: nat)
    requires k < n && forall i: nat :: i < n && i != k ==> Weight(s, i) == Weight(s', i)
    ensures Weights(s', n) == Weights(s, n) + Weight(s', k) - Weight(s, k)
    decreases n
  {
    if k == n - 1 {
      WeightsSame(s, s', n - 1);
    } else {
      WeightsChange(s, s', n - 1, k);
    }
  }

  /** What a worker's step adds to the work of the reaper at most. */
  function Added(p: WorkerPoint): nat {
    if p.Pushing? then 10 else if p.Signalling? then 7 else 0
  }

  lemma WorkerAddsWork(s: State, i: nat)
    requires Locks(s) && Internal(s, WorkerStep(i))
    ensures Work(WorkerMove(s, i)) <= Work(s) + Added(s.workers[i])
  {
    match s.workers[i]
    case Pushing => PushAddsWork(s, i);
    case Signalling => SignalAddsWork(s, i);
    case _ =>
  }

  lemma PushAddsWork(s: State, i: nat)
    requires Locks(s) && i in s.workers && s.workers[i].Pushing?
    ensures Work(WorkerMove(s, i)) <= Work(s) + 10
  {
    assert s.queueLock == Worker(i) && !ReaperLocks(s.reaper);
  }

  lemma SignalAddsWork(s: State, i: nat)
    requires Locks(s) && i in s.workers && s.workers[i].Signalling?
    ensures Work(WorkerMove(s, i)) <= Work(s) + 7
  {
    assert s.queueLock == Worker(i) && !ReaperLocks(s.reaper);
  }

  /** A worker's step costs it more weight than it adds work for the reaper. */
  lemma WorkerWeighsLess(s: State, i: nat)
    requires Threads(s) && Internal(s, WorkerStep(i))
    ensures var s' := WorkerMove(s, i);
            Weights(s', s.nextNode) + Added(s.workers[i]) < Weights(s, s.nextNode)
  {
    var s' := WorkerMove(s, i);
    WorkerLeaves(s, i);
    WorkerGoesOn(s.workers[i], s'.workers[i], s, i);
    WeightsChange(s, s', s.nextNode, i);
    assert Joins(s', i) == Joins(s, i);
  }

  lemma WorkerGoesOn(p: WorkerPoint, p': WorkerPoint, s: State, i: nat)
    requires i in s.workers && s.workers[i] == p && !p.Serving? && !p.Exited?
    requires i in WorkerMove(s, i).workers && p' == WorkerMove(s, i).workers[i]
    ensures WorkerRank(p') + Added(p) < WorkerRank(p)
  {
  }

  lemma WorkerRanksDown(s: State, i: nat)
    requires Base(s) && Internal(s, WorkerStep(i))
    ensures Rank(WorkerMove(s, i)) < Rank(s)
  {
    WorkerAddsWork(s, i);
    WorkerLeaves(s, i);
    WorkerWeighsLess(s, i);
  }

  /** A step of the reaper that does not hold the queue lock, or is about to let it go. */
  lemma ReaperWorksOutside(s: State)
    requires !ReaperLocks(s.reaper) || s.reaper.Checking? || s.reaper.Unlocking?
    requires Enabled(s, ReaperStep)
    ensures Work(ReaperMove(s)) < Work(s)
    ensures ReaperMove(s).main == s.main && ReaperMove(s).nextNode == s.nextNode
  {
  }

  /** A step of the reaper at its queue. */
  lemma ReaperWorksInside(s: State)
    requires s.reaper.Draining? || s.reaper.Reaping? || s.reaper.Joining? || s.reaper.Erasing? || s.reaper.Erased?
    ensures Work(ReaperMove(s)) < Work(s)
    ensures ReaperMove(s).main == s.main && ReaperMove(s).nextNode == s.nextNode
  {
  }

  lemma ReaperLeavesWeights(s: State)
    requires Threads(s) && Queue(s) && Enabled(s, ReaperStep)
    ensures Weights(ReaperMove(s), s.nextNode) <= Weights(s, s.nextNode)
  {
    var s' := ReaperMove(s);
    if s.reaper.Joining? {
      JoinWeights(s, s.reaper.node);
      WeightsSame(Join(s, s.reaper.node), s', s.nextNode);
    } else {
      ReaperLeavesWorkers(s);
      WeightsSame(s, s', s.nextNode);
    }
  }

  lemma ReaperLeavesWorkers(s: State)
    requires !s.reaper.Joining?
    ensures ReaperMove(s).workers == s.workers && ReaperMove(s).joins == s.joins
  {
    if HoldsNode(s.reaper) || s.reaper.Draining? {
      return;
    }
  }

  lemma ReaperRanksDown(s: State)
    requires Base(s) && Internal(s, ReaperStep)
    ensures Rank(ReaperMove(s)) < Rank(s)
  {
    if !ReaperLocks(s.reaper) || s.reaper.Checking? || s.reaper.Unlocking? {
      ReaperWorksOutside(s);
    } else {
      ReaperWorksInside(s);
    }
    ReaperLeavesWeights(s);
  }

  lemma SpawnWeights(atomic: bool, s: State)
    requires Threads(s) && s.main.Spawning?
    ensures var s' := MainMove(atomic, s);
            s'.nextNode == s.nextNode && Weights(s', s'.nextNode) == Weights(s, s.nextNode) + 1
  {
    WeightsChange(s, MainMove(atomic, s), s.nextNode, s.main.node);
  }

  lemma JoinWeights(s: State, i: nat)
    requires Threads(s) && i in s.nodes && s.nodes[i] == Owns && HasExited(s, i)
    ensures Weights(Join(s, i), s.nextNode) == Weights(s, s.nextNode) - 1
  {
    WeightsChange(s, Join(s, i), s.nextNode, i);
  }

  /** The weights after a step of the main thread: one worker more, or one less to join. */
  lemma MainChangesWeights(atomic: bool, s: State)
    requires Threads(s) && Enabled(s, MainStep)
    ensures var s' := MainMove(atomic, s);
            Weights(s', s'.nextNode) ==
            if s.main.Spawning? then Weights(s, s.nextNode) + 1
            else if s.main.JoiningRest? && s'.main.JoiningRest? then Weights(s, s.nextNode) - 1
            else Weights(s, s.nextNode)
  {
    var s' := MainMove(atomic, s);
    if s.main.Spawning? {
      SpawnWeights(atomic, s);
    } else if s.main.JoiningRest? {
      RestWeights(atomic, s);
    } else {
      MainLeavesWorkersAlone(atomic, s);
      WeightsUnchanged(s, s');
    }
  }

  lemma RestWeights(atomic: bool, s: State)
    requires Threads(s) && s.main.JoiningRest? && Enabled(s, MainStep)
    ensures var s' := MainMove(atomic, s);
            && s'.nextNode == s.nextNode
            && Weights(s', s.nextNode) == Weights(s, s.nextNode) - (if s'.main.JoiningRest? then 1 else 0)
  {
    var s' := MainMove(atomic, s);
    if exists i: nat :: FirstJoinable(s, i) {
      var j: nat :| FirstJoinable(s, j) && s' == Join(s, j);
      JoinWeights(s, j);
    } else {
      WeightsUnchanged(s, s');
    }
  }

  lemma MainLeavesWorkersAlone(atomic: bool, s: State)
    requires !s.main.Spawning? && !s.main.JoiningRest?
    ensures var s' := MainMove(atomic, s);
            && s'.workers == s.workers && s'.joins == s.joins && s.nextNode <= s'.nextNode <= s.nextNode + 1
  {
    match s.main
    case Accepting =>
    case Growing =>
    case Storing(_) =>
    case Accepted =>
    case Stopping =>
    case Waking =>
    case Notifying =>
    case Notified =>
    case JoiningReaper =>
    case Closing =>
    case Over =>
  }

  lemma WeightsUnchanged(s: State, s': State)
    requires Threads(s) && s'.workers == s.workers && s'.joins == s.joins
    requires s.nextNode <= s'.nextNode <= s.nextNode + 1
    ensures Weights(s', s'.nextNode) == Weights(s, s.nextNode)
  {
    WeightsSame(s, s', s.nextNode);
  }

  /** What a step of the main thread adds to the work of the reaper at most. */
  function AddedByMain(p: MainPoint): nat {
    if p.Stopping? then 3 else if p.Notifying? then 5 else 0
  }

  lemma MainAddsWork(atomic: bool, s: State)
    requires Shutdown(s) && Enabled(s, MainStep)
    ensures Work(MainMove(atomic, s)) <= Work(s) + AddedByMain(s.main)
  {
    if !s.main.Notifying? {
      MainLeavesReaper(atomic, s);
      MainWakesNobody(atomic, s);
    }
  }

  lemma MainWakesNobody(atomic: bool, s: State)
    requires !s.main.Notifying?
    ensures MainMove(atomic, s).reaper == s.reaper
    ensures !s.main.Stopping? ==> MainMove(atomic, s).stop == s.stop
  {
    match s.main
    case Accepting =>
    case Growing =>
    case Spawning(_) =>
    case Storing(_) =>
    case Accepted =>
    case Stopping =>
    case Waking =>
    case Notified =>
    case JoiningReaper =>
    case Closing =>
    case JoiningRest =>
    case Over =>
  }

  /** Its own rank falls by more than that, and than what a new worker weighs. */
  lemma MainGoesOn(atomic: bool, s: State)
    requires Internal(s, MainStep)
    ensures var s' := MainMove(atomic, s);
            MainRank(s'.main) + AddedByMain(s.main) + (if s.main.Spawning? then 1 else 0) <
            MainRank(s.main) + (if s.main.JoiningRest? && s'.main.JoiningRest? then 1 else 0)
  {
    match s.main
    case Growing =>
    case Spawning(_) =>
    case Storing(_) =>
    case Accepted =>
    case Stopping =>
    case Waking =>
    case Notifying =>
    case Notified =>
    case JoiningReaper =>
    case Closing =>
    case JoiningRest =>
  }

  lemma MainRanksDown(atomic: bool, s: State)
    requires Base(s) && Internal(s, MainStep)
    ensures Rank(MainMove(atomic, s)) < Rank(s)
  {
    MainChangesWeights(atomic, s);
    MainAddsWork(atomic, s);
    MainGoesOn(atomic, s);
  }

  lemma InternalRanksDown(atomic: bool, s: State, e: Event)
    requires Base(s) && Internal(s, e)
    ensures Rank(Next(atomic, s, e)) < Rank(s)
  {
    match e
    case MainStep => MainRanksDown(atomic, s);
    case ReaperStep => ReaperRanksDown(s);
    case WorkerStep(i) => WorkerRanksDown(s, i);
  }

  // ------------------------------------------------------------------ bounded shutdown

  /** A run of internal steps. */
  ghost predicate InternalRun(atomic: bool, s: State, events: seq<Event>)
    decreases |events|
  {
    events == [] || (Internal(s, events[0]) && InternalRun(atomic, Next(atomic, s, events[0]), events[1..]))
  }

  ghost function RunFrom(atomic: bool, s: State, events: seq<Event>): State
    decreases |events|
  {
    if events == [] then s else RunFrom(atomic, Next(atomic, s, events[0]), events[1..])
  }

  /** Left to themselves the threads come to rest: internal runs are no longer than the rank of their first state. */
  lemma {:induction false} InternalRunsEnd(atomic: bool, s: State, events: seq<Event>)
    requires Base(s) && InternalRun(atomic, s, events)
    ensures |events| <= Rank(s) && Base(RunFrom(atomic, s, events))
    decreases |events|
  {
    if events != [] {
      StepKeeps(atomic, s, events[0]);
      InternalRanksDown(atomic, s, events[0]);
      InternalRunsEnd(atomic, Next(atomic, s, events[0]), events[1..]);
    }
  }

  lemma {:induction false} RunFromIs(atomic: bool, before: seq<Event>, events: seq<Event>)
    ensures RunFrom(atomic, After(atomic, before), events) == After(atomic, before + events)
    decreases |events|
  {
    if events == [] {
      assert before + events == before;
      return;
    }
    var one := Appended(atomic, before, events[0]);
    assert before + events == one + events[1..];
    RunFromIs(atomic, one, events[1..]);
  }

  /** With no internal step left and no client connected, a stopped server is done and its workers have exited. */
  lemma Finished(s: State)
    requires Base(s) && s.stop && forall i :: i in s.workers ==> !s.workers[i].Serving?
    requires forall e :: !Internal(s, e)
    ensures s.main.Over? && forall i :: i in s.workers ==> s.workers[i] == Exited
  {
    if s.queueLock != Nobody {
      var e := LockHolderMoves(s);
    } else if !AtRest(s) {
      var e := FreeQueueMoves(s);
    }
    forall i | i in s.workers
      ensures s.workers[i] == Exited
    {
      assert !Internal(s, WorkerStep(i));
    }
  }

  /** Once the destructor runs and every client has gone, the threads finish: when no internal step is left, which is
      after at most `Rank` of them, the destructor is done and every worker has exited. Each has then been joined
      exactly once, unless a handle was asked too early. */
  lemma ShutdownCompletes(atomic: bool, before: seq<Event>, events: seq<Event>)
    requires InternalRun(atomic, After(atomic, before), events)
    ensures |events| <= Rank(After(atomic, before))
    ensures var s := After(atomic, before + events);
            s.stop && (forall i :: i in s.workers ==> !s.workers[i].Serving?) && (forall e :: !Internal(s, e)) ==>
              && s.main.Over? && (forall i :: i in s.workers ==> s.workers[i] == Exited)
              && (NeverEarly(atomic, before + events) ==> forall i :: i in s.workers ==> Joins(s, i) == 1)
  {
    RunKeeps(atomic, before);
    InternalRunsEnd(atomic, After(atomic, before), events);
    RunFromIs(atomic, before, events);
    var s := After(atomic, before + events);
    if s.stop && (forall i :: i in s.workers ==> !s.workers[i].Serving?) && (forall e :: !Internal(s, e)) {
      Finished(s);
      if NeverEarly(atomic, before + events) {
        RunIntact(atomic, before + events);
      }
    }
  }
}
