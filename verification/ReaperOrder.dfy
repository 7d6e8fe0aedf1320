/** The order in which finished workers are taken by the reaper. */
module ReaperOrder {
  import opened ReaperProtocol

  /** The worker that `e` makes push its iterator, if it does. */
  ghost function PushedBy(s: State, e: Event): seq<nat> {
    if Enabled(s, e) && e.WorkerStep? && s.workers[e.id] == Pushing then [e.id] else []
  }

  /** The worker whose iterator `e` makes the reaper pop, if it does. */
  ghost function PoppedBy(s: State, e: Event): seq<nat> {
    if Enabled(s, e) && e.ReaperStep? && s.reaper.Draining? && Next(true, s, e).reaper.Reaping?
    then [Next(true, s, e).reaper.node] else []
  }

  /** The workers that have pushed their iterators in a run, in that order. */
  ghost function Pushed(atomic: bool, events: seq<Event>): seq<nat>
    decreases |events|
  {
    if events == [] then []
    else
      var n := |events| - 1;
      Pushed(atomic, events[..n]) + PushedBy(After(atomic, events[..n]), events[n])
  }

  /** The workers whose iterators the reaper has popped, in that order. */
  ghost function Popped(atomic: bool, events: seq<Event>): seq<nat>
    decreases |events|
  {
    if events == [] then []
    else
      var n := |events| - 1;
      Popped(atomic, events[..n]) + PoppedBy(After(atomic, events[..n]), events[n])
  }

  lemma MainKeepsQueue(atomic: bool, s: State)
    ensures MainMove(atomic, s).queue == s.queue
  {
  }

  lemma WorkerQueue(s: State, i: nat)
    requires i in s.workers
    ensures WorkerMove(s, i).queue == s.queue + if s.workers[i] == Pushing then [i] else []
  {
  }

  lemma DrainingPops(s: State)
    requires s.reaper.Draining?
    ensures s.queue != [] ==> ReaperMove(s).reaper == Reaping(s.queue[0]) && ReaperMove(s).queue == s.queue[1..]
    ensures s.queue == [] ==> ReaperMove(s).reaper == Unlocking && ReaperMove(s).queue == []
  {
  }

  lemma ReaperKeepsQueue(s: State)
    requires !s.reaper.Draining?
    ensures ReaperMove(s).queue == s.queue
  {
    match s.reaper
    case Testing =>
    case Locking =>
    case Woken =>
    case Checking =>
    case Sleeping =>
    case Reaping(i) =>
    case Joining(i) =>
    case Erasing(i) =>
    case Erased(i) =>
    case Unlocking =>
    case Finished =>
  }

  lemma QueueStep(atomic: bool, s: State, e: Event)
    ensures s.queue + PushedBy(s, e) == PoppedBy(s, e) + Next(atomic, s, e).queue
  {
    if !Enabled(s, e) { return; }
    match e
    case WorkerStep(i) => WorkerQueue(s, i);
    case ReaperStep =>
      if s.reaper.Draining? {
        DrainingPops(s);
      } else {
        ReaperKeepsQueue(s);
      }
    case MainStep => MainKeepsQueue(atomic, s);
    case SpawnFails =>
    case SpuriousWake =>
  }

  lemma Regroup(popped: seq<nat>, queue: seq<nat>, pushed: seq<nat>, one: seq<nat>, rest: seq<nat>)
    requires queue + pushed == one + rest
    ensures popped + queue + pushed == popped + one + rest
  {
    assert popped + queue + pushed == popped + (queue + pushed);
  }

  /** Workers are taken in the order in which they have pushed themselves: what has been pushed is what has been popped
      and then what is still queued. */
  lemma {:induction false} FirstInFirstOut(atomic: bool, events: seq<Event>)
    ensures Pushed(atomic, events) == Popped(atomic, events) + After(atomic, events).queue
    decreases |events|
  {
    if events == [] { return; }
    var before, e := events[..|events| - 1], events[|events| - 1];
    var s := After(atomic, before);
    FirstInFirstOut(atomic, before);
    QueueStep(atomic, s, e);
    Regroup(Popped(atomic, before), s.queue, PushedBy(s, e), PoppedBy(s, e), Next(atomic, s, e).queue);
  }
}
