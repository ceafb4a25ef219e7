/** How many handles share a descriptor, and when the descriptor is closed. */
module Lifetime {

  /** `cnt` is the stored count, `closes` how often the descriptor was closed; the other two are the truth. */
  datatype Life = Life(cnt: int, closes: nat, live: nat, failedFlushes: nat)

  /** `Destroy(flushed)`: the flush in the destructor succeeded, or threw and ended the destructor early. */
  datatype Event = Copy | Destroy(flushed: bool)

  const OPENED := Life(1, 0, 1, 0)

  function Drop(l: Life): Life {
    l.(cnt := l.cnt - 1, closes := l.closes + if l.cnt - 1 == 0 then 1 else 0)
  }

  function Step(l: Life, e: Event): Life
    requires l.live > 0
  {
    match e
    case Copy => l.(cnt := l.cnt + 1, live := l.live + 1)
    case Destroy(flushed) =>
      var gone := l.(live := l.live - 1);
      if flushed then Drop(gone) else gone.(failedFlushes := l.failedFlushes + 1)
  }

  /** Only a live handle can be copied or destroyed, so a run stops when none is left. */
  function Run(l: Life, events: seq<Event>): Life
    decreases |events|
  {
    if events == [] || l.live == 0 then l else Run(Step(l, events[0]), events[1..])
  }

  ghost predicate Consistent(l: Life) {
    && l.cnt == l.live + l.failedFlushes
    && l.closes == if l.cnt == 0 then 1 else 0
  }

  lemma {:induction false} RunConsistent(l: Life, events: seq<Event>)
    requires Consistent(l)
    ensures Consistent(Run(l, events))
    decreases |events|
  {
    if events != [] && l.live > 0 {
      RunConsistent(Step(l, events[0]), events[1..]);
    }
  }

  /**
   Over all runs: the count covers the live handles, the descriptor is closed at most once and never
   under a live handle, and once the last handle is gone it has been closed if and only if no
   destructor's flush threw.
   */
  lemma ClosedOnceByLastHandle(events: seq<Event>)
    ensures var l := Run(OPENED, events);
            && l.cnt == l.live + l.failedFlushes
            && l.closes <= 1
            && (l.live > 0 ==> l.closes == 0)
            && (l.live == 0 ==> (l.closes == 1 <==> l.failedFlushes == 0))
  {
    RunConsistent(OPENED, events);
  }

  function Copies(events: seq<Event>): nat {
    if events == [] then 0 else (if events[0].Copy? then 1 else 0) + Copies(events[1..])
  }

  /** The destructions whose flush threw. */
  function Failures(events: seq<Event>): nat {
    if events == [] then 0 else (if events[0] == Destroy(false) then 1 else 0) + Failures(events[1..])
  }

  /** Only handles that live are copied and destroyed. */
  predicate Feasible(live: nat, events: seq<Event>)
    decreases |events|
  {
    events == [] ||
    (live > 0 && Feasible(if events[0].Copy? then live + 1 else live - 1, events[1..]))
  }

  lemma {:induction false} RunCounts(l: Life, events: seq<Event>)
    requires Feasible(l.live, events)
    ensures Run(l, events).failedFlushes == l.failedFlushes + Failures(events)
    ensures Run(l, events).live == l.live + 2 * Copies(events) - |events|
    decreases |events|
  {
    if events != [] {
      RunCounts(Step(l, events[0]), events[1..]);
    }
  }

  /** In terms of what happened: when all handles are gone, the descriptor has been closed exactly if every flush succeeded. */
  lemma ClosedIfAllFlushed(events: seq<Event>)
    requires Feasible(1, events) && |events| == 2 * Copies(events) + 1
    ensures Run(OPENED, events).closes == if Failures(events) == 0 then 1 else 0
    ensures Run(OPENED, events).cnt == Failures(events)
  {
    RunCounts(OPENED, events);
    ClosedOnceByLastHandle(events);
  }
}
