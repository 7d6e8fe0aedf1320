/** The threads of `ProxyServer`: one that accepts connections and at last destroys the server, one worker for
    each connection, and the reaper, with their two locks, condition variable and stop flag. */
module ReaperProtocol {

  datatype Owner = Nobody | Main | Reaper | Worker(id: nat)

  /** The thread that runs `start` and, when that throws, the destructor. */
  datatype MainPoint =
    | Accepting            // in accept
    | Growing              // holds the list lock, about to append an empty handle
    | Spawning(node: nat)  // about to create the thread
    | Storing(node: nat)   // the thread runs, its handle is not in the list node yet
    | Accepted             // about to release the list lock
    | Stopping             // in the destructor, about to set the stop flag
    | Waking               // about to take the queue lock
    | Notifying            // holds it, about to notify
    | Notified             // about to release it
    | JoiningReaper
    | Closing              // about to take the list lock
    | JoiningRest          // holds it, joining what is still joinable
    | Over

  datatype ReaperPoint =
    | Testing              // the loop condition
    | Locking              // about to take the queue lock
    | Checking             // holds it, about to evaluate the wait predicate
    | Sleeping             // in wait, lock released
    | Woken                // notified, about to take the lock again
    | Draining             // holds the lock, at the inner loop
    | Reaping(node: nat)   // popped, about to ask whether the handle is joinable
    | Joining(node: nat)
    | Erasing(node: nat)   // about to take the list lock
    | Erased(node: nat)    // holds it, about to erase the node
    | Unlocking            // about to release the queue lock
    | Finished

  datatype WorkerPoint =
    | Serving              // in handle_client_requests
    | Leaving              // about to take the queue lock
    | Pushing              // holds it, about to push its iterator
    | Signalling           // about to notify
    | Releasing            // about to release it
    | Returning            // released, the thread still runs
    | Exited

  /** A `std::thread` handle in the list: default-constructed or joined, or owning a thread. */
  datatype Handle = Empty | Owns

  /** `joins` counts how often each worker has been joined; `crashed` is a call of `std::terminate`, for a joinable
      handle that is destroyed, or the use of an erased node. */
  datatype State = State(
    main: MainPoint,
    reaper: ReaperPoint,
    workers: map<nat, WorkerPoint>,
    nodes: map<nat, Handle>,
    queue: seq<nat>,
    stop: bool,
    queueLock: Owner,
    listLock: Owner,
    nextNode: nat,
    joins: map<nat, nat>,
    crashed: bool)

  const INITIAL := State(Accepting, Testing, map[], map[], [], false, Nobody, Nobody, 0, map[], false)

  /** Each thread has one next step; `SpawnFails` is an exception of thread creation, `SpuriousWake` one of the wake-ups
      a condition variable may have for no reason. */
  datatype Event = MainStep | SpawnFails | ReaperStep | SpuriousWake | WorkerStep(id: nat)

  /** Waking the one thread that may sleep on the condition variable. */
  function Notify(s: State): State {
    if s.reaper.Sleeping? then s.(reaper := Woken) else s
  }

  /** The first handle still joinable, in list order. */
  ghost predicate FirstJoinable(s: State, i: nat) {
    i in s.nodes && s.nodes[i] == Owns && forall j :: j in s.nodes && j < i ==> s.nodes[j] == Empty
  }

  function Join(s: State, i: nat): State {
    s.(nodes := s.nodes[i := Empty], joins := s.joins[i := (if i in s.joins then s.joins[i] else 0) + 1])
  }

  function HasExited(s: State, i: nat): bool {
    i in s.workers && s.workers[i] == Exited
  }

  ghost predicate Enabled(s: State, e: Event) {
    match e
    case MainStep =>
      (match s.main
       case Accepting => s.listLock == Nobody
       case Waking => s.queueLock == Nobody
       case JoiningReaper => s.reaper.Finished?
       case Closing => s.listLock == Nobody
       case JoiningRest => forall i :: FirstJoinable(s, i) ==> HasExited(s, i)
       case Over => false
       case _ => true)
    case SpawnFails => s.main.Spawning?
    case ReaperStep =>
      (match s.reaper
       case Locking => s.queueLock == Nobody
       case Woken => s.queueLock == Nobody
       case Sleeping => false
       case Joining(i) => HasExited(s, i)
       case Erasing(i) => s.listLock == Nobody
       case Finished => false
       case _ => true)
    case SpuriousWake => s.reaper.Sleeping?
    case WorkerStep(i) =>
      i in s.workers && s.workers[i] != Exited && (s.workers[i] == Leaving ==> s.queueLock == Nobody)
  }

  /** The step of the accepting and destroying thread. With `atomic`, creating the thread and storing its handle are
      one step; in the code the thread may run before its handle is stored. */
  ghost function MainMove(atomic: bool, s: State): State {
    match s.main
    case Accepting => s.(main := Growing, listLock := Main)
    case Growing => s.(main := Spawning(s.nextNode), nodes := s.nodes[s.nextNode := Empty], nextNode := s.nextNode + 1)
    case Spawning(i) =>
      if atomic then
        s.(main := Accepted, workers := s.workers[i := Serving], nodes := s.nodes[i := Owns])
      else
        s.(main := Storing(i), workers := s.workers[i := Serving])
    case Storing(i) => s.(main := Accepted, nodes := s.nodes[i := Owns], crashed := s.crashed || i !in s.nodes)
    case Accepted => s.(main := Accepting, listLock := Nobody)
    case Stopping => s.(main := Waking, stop := true)
    case Waking => s.(main := Notifying, queueLock := Main)
    case Notifying => Notify(s.(main := Notified))
    case Notified => s.(main := JoiningReaper, queueLock := Nobody)
    case JoiningReaper => s.(main := Closing)
    case Closing => s.(main := JoiningRest, listLock := Main)
    case JoiningRest =>
      if i: nat :| FirstJoinable(s, i) then Join(s, i)
      else s.(main := Over, listLock := Nobody, crashed := s.crashed || exists j :: j in s.nodes && s.nodes[j] == Owns)
    case Over => s
  }

  function ReaperMove(s: State): State {
    match s.reaper
    case Testing => s.(reaper := if s.stop then Finished else Locking)
    case Locking => s.(reaper := Checking, queueLock := Reaper)
    case Woken => s.(reaper := Checking, queueLock := Reaper)
    case Checking =>
      if s.queue != [] || s.stop then s.(reaper := Draining) else s.(reaper := Sleeping, queueLock := Nobody)
    case Sleeping => s
    case Draining =>
      if s.queue == [] then s.(reaper := Unlocking)
      else s.(reaper := Reaping(s.queue[0]), queue := s.queue[1..])
    case Reaping(i) => s.(reaper := if i in s.nodes && s.nodes[i] == Owns then Joining(i) else Erasing(i))
    case Joining(i) => Join(s, i).(reaper := Erasing(i))
    case Erasing(i) => s.(reaper := Erased(i), listLock := Reaper)
    case Erased(i) =>
      s.(reaper := Draining, nodes := s.nodes - {i}, listLock := Nobody,
         crashed := s.crashed || i !in s.nodes || s.nodes[i] == Owns)
    case Unlocking => s.(reaper := Testing, queueLock := Nobody)
    case Finished => s
  }

  function WorkerMove(s: State, i: nat): State
    requires i in s.workers
  {
    match s.workers[i]
    case Serving => s.(workers := s.workers[i := Leaving])
    case Leaving => s.(workers := s.workers[i := Pushing], queueLock := Worker(i))
    case Pushing => s.(workers := s.workers[i := Signalling], queue := s.queue + [i])
    case Signalling => Notify(s.(workers := s.workers[i := Releasing]))
    case Releasing => s.(workers := s.workers[i := Returning], queueLock := Nobody)
    case Returning => s.(workers := s.workers[i := Exited])
    case Exited => s
  }

  /** One step; an event that is not enabled changes nothing. */
  ghost function Next(atomic: bool, s: State, e: Event): State {
    if !Enabled(s, e) then s
    else
      match e
      case MainStep => MainMove(atomic, s)
      case SpawnFails => s.(main := Stopping, listLock := Nobody)
      case ReaperStep => ReaperMove(s)
      case SpuriousWake => s.(reaper := Woken)
      case WorkerStep(i) => WorkerMove(s, i)
  }

  /** The state a run of events leads to; every reachable state is one of these. */
  ghost function After(atomic: bool, events: seq<Event>): State
    decreases |events|
  {
    if events == [] then INITIAL else Next(atomic, After(atomic, events[..|events| - 1]), events[|events| - 1])
  }
}
