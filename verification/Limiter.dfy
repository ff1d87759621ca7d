/**
 A bounded queue in front of a fixed number of slots, as a state machine over three
 events: a task arrives, a waiting task's signal aborts, a running task finishes.
 Events never interleave: each runs to its end.
 */
module Limiter {
  type TaskId = nat

  datatype Limits = Limits(concurrency: nat, queueSize: nat)

  datatype Fate = Waiting | Running | Done | Busy | Aborted

  /**
   `active`, `queue` and the abort listeners are the limiter's own; the rest is
   the history: each task's fate, its place in the order of arrival, and the
   tasks that started, in order.
   */
  datatype State = State(
    active: int, queue: seq<TaskId>, listening: set<TaskId>,
    fates: map<TaskId, Fate>, arrival: map<TaskId, nat>, started: seq<TaskId>)

  const INITIAL: State := State(0, [], {}, map[], map[], [])

  datatype Event =
    | Arrive(id: TaskId, hasSignal: bool, alreadyAborted: bool)
    | Abort(id: TaskId)
    | Finish(id: TaskId)

  /** The index of the first occurrence, or -1. */
  function IndexOf(queue: seq<TaskId>, id: TaskId): (r: int)
    ensures -1 <= r < |queue|
    ensures r >= 0 ==> queue[r] == id
    ensures r < 0 ==> id !in queue
  {
    if queue == [] then -1
    else if queue[0] == id then 0
    else
      var rest := IndexOf(queue[1..], id);
      if rest < 0 then -1 else rest + 1
  }

  /** `splice(index, 1)`: a negative index counts from the end. */
  function SpliceOne(queue: seq<TaskId>, index: int): seq<TaskId>
    requires -1 <= index < |queue|
  {
    if index >= 0 then queue[..index] + queue[index + 1..]
    else if queue == [] then [] else queue[..|queue| - 1]
  }

  // --- The events ---

  predicate Enabled(s: State, e: Event) {
    match e
    case Arrive(id, hasSignal, alreadyAborted) => id !in s.fates && (alreadyAborted ==> hasSignal)
    case Abort(_) => true
    case Finish(id) => id in s.fates && s.fates[id] == Running
  }

  function Acquired(limits: Limits, s: State, id: TaskId, hasSignal: bool, alreadyAborted: bool): State {
    var arrived := s.(arrival := s.arrival[id := |s.arrival|]);
    if alreadyAborted then arrived.(fates := s.fates[id := Aborted])
    else if s.active < limits.concurrency then
      arrived.(active := s.active + 1, fates := s.fates[id := Running], started := s.started + [id])
    else if |s.queue| >= limits.queueSize then arrived.(fates := s.fates[id := Busy])
    else arrived.(queue := s.queue + [id], listening := if hasSignal then s.listening + {id} else s.listening,
                  fates := s.fates[id := Waiting])
  }

  /** A listener that is attached runs once. */
  function OnAbort(s: State, id: TaskId): State {
    if id !in s.listening then s
    else s.(queue := SpliceOne(s.queue, IndexOf(s.queue, id)), listening := s.listening - {id}, fates := s.fates[id := Aborted])
  }

  /** The slot goes to the next waiting task, or back. */
  function Released(s: State, id: TaskId): State {
    var done := s.fates[id := Done];
    if s.queue == [] then s.(active := s.active - 1, fates := done)
    else
      var next := s.queue[0];
      s.(queue := s.queue[1..], listening := s.listening - {next}, fates := done[next := Running], started := s.started + [next])
  }

  function Next(limits: Limits, s: State, e: Event): State {
    match e
    case Arrive(id, hasSignal, alreadyAborted) => Acquired(limits, s, id, hasSignal, alreadyAborted)
    case Abort(id) => OnAbort(s, id)
    case Finish(id) => Released(s, id)
  }

  // --- What every event keeps ---

  function RunningTasks(fates: map<TaskId, Fate>): set<TaskId> {
    set id | id in fates && fates[id] == Running
  }

  ghost predicate Distinct(ids: seq<TaskId>) {
    forall i, j | 0 <= i < j < |ids| :: ids[i] != ids[j]
  }

  /** Tasks in the order they arrived in. */
  ghost predicate InOrder(ids: seq<TaskId>, arrival: map<TaskId, nat>) {
    && (forall i | 0 <= i < |ids| :: ids[i] in arrival)
    && forall i, j | 0 <= i < j < |ids| :: arrival[ids[i]] < arrival[ids[j]]
  }

  ghost predicate Bounds(limits: Limits, s: State) {
    && s.active == |RunningTasks(s.fates)| && s.active <= limits.concurrency
    && |s.queue| <= limits.queueSize && (s.queue != [] ==> s.active == limits.concurrency)
  }

  ghost predicate Bookkeeping(s: State) {
    && s.arrival.Keys == s.fates.Keys
    && (forall id | id in s.arrival :: s.arrival[id] < |s.arrival|)
    && (forall id :: id in s.queue <==> id in s.fates && s.fates[id] == Waiting)
    && (forall id :: id in s.started <==> id in s.fates && (s.fates[id] == Running || s.fates[id] == Done))
    && (forall id | id in s.listening :: id in s.queue)
  }

  /**
   The slots held are those counted, within the limits; nobody waits while a
   slot is free; a listener belongs to a waiting task; and the tasks started,
   then those waiting, are in the order they arrived.
   */
  ghost predicate Safe(limits: Limits, s: State) {
    Bounds(limits, s) && Bookkeeping(s) && InOrder(s.started + s.queue, s.arrival)
  }

  lemma InitiallySafe(limits: Limits)
    ensures Safe(limits, INITIAL)
  {}

  lemma StartsRunning(fates: map<TaskId, Fate>, id: TaskId)
    requires id !in fates || fates[id] != Running
    ensures |RunningTasks(fates[id := Running])| == |RunningTasks(fates)| + 1
  {
    assert RunningTasks(fates[id := Running]) == RunningTasks(fates) + {id};
  }

  lemma StopsRunning(fates: map<TaskId, Fate>, id: TaskId, fate: Fate)
    requires id in fates && fates[id] == Running && fate != Running
    ensures |RunningTasks(fates[id := fate])| == |RunningTasks(fates)| - 1
  {
    assert RunningTasks(fates[id := fate]) == RunningTasks(fates) - {id};
  }

  lemma NeverRunning(fates: map<TaskId, Fate>, id: TaskId, fate: Fate)
    requires (id !in fates || fates[id] != Running) && fate != Running
    ensures RunningTasks(fates[id := fate]) == RunningTasks(fates)
  {}

  lemma ArrivalKeepsOrder(ids: seq<TaskId>, arrival: map<TaskId, nat>, id: TaskId)
    requires InOrder(ids, arrival) && id !in arrival && forall k | k in arrival :: arrival[k] < |arrival|
    ensures InOrder(ids, arrival[id := |arrival|]) && InOrder(ids + [id], arrival[id := |arrival|])
  {}

  /** A queue that holds part of an order holds each task once. */
  lemma QueueIsDistinct(front: seq<TaskId>, queue: seq<TaskId>, arrival: map<TaskId, nat>)
    requires InOrder(front + queue, arrival)
    ensures Distinct(queue)
  {
    assert forall i | 0 <= i < |queue| :: (front + queue)[|front| + i] == queue[i];
  }

  lemma RefusalIsSafe(limits: Limits, s: State, id: TaskId, fate: Fate)
    requires Safe(limits, s) && id !in s.fates && (fate == Aborted || fate == Busy)
    ensures Safe(limits, s.(arrival := s.arrival[id := |s.arrival|], fates := s.fates[id := fate]))
  {
    ArrivalKeepsOrder(s.started + s.queue, s.arrival, id);
    NeverRunning(s.fates, id, fate);
  }

  lemma StartIsSafe(limits: Limits, s: State, id: TaskId)
    requires Safe(limits, s) && id !in s.fates && s.active < limits.concurrency
    ensures Safe(limits, s.(arrival := s.arrival[id := |s.arrival|], active := s.active + 1,
                            fates := s.fates[id := Running], started := s.started + [id]))
  {
    ArrivalKeepsOrder(s.started + s.queue, s.arrival, id);
    StartsRunning(s.fates, id);
    assert s.queue == [] && s.started + [id] + s.queue == s.started + s.queue + [id];
  }

  lemma WaitIsSafe(limits: Limits, s: State, id: TaskId, listening: set<TaskId>)
    requires Safe(limits, s) && id !in s.fates && s.active == limits.concurrency && |s.queue| < limits.queueSize
    requires listening <= s.listening + {id}
    ensures Safe(limits, s.(arrival := s.arrival[id := |s.arrival|], queue := s.queue + [id],
                            listening := listening, fates := s.fates[id := Waiting]))
  {
    ArrivalKeepsOrder(s.started + s.queue, s.arrival, id);
    NeverRunning(s.fates, id, Waiting);
    assert s.started + (s.queue + [id]) == s.started + s.queue + [id];
  }

  lemma AcquireIsSafe(limits: Limits, s: State, e: Event)
    requires Safe(limits, s) && Enabled(s, e) && e.Arrive?
    ensures Safe(limits, Next(limits, s, e))
  {
    if e.alreadyAborted {
      RefusalIsSafe(limits, s, e.id, Aborted);
    } else if s.active < limits.concurrency {
      StartIsSafe(limits, s, e.id);
    } else if |s.queue| >= limits.queueSize {
      RefusalIsSafe(limits, s, e.id, Busy);
    } else {
      WaitIsSafe(limits, s, e.id, Next(limits, s, e).listening);
    }
  }

  lemma HandOverKeepsOrder(started: seq<TaskId>, queue: seq<TaskId>, arrival: map<TaskId, nat>)
    requires queue != [] && InOrder(started + queue, arrival)
    ensures InOrder(started + [queue[0]] + queue[1..], arrival)
    ensures queue[0] !in queue[1..] && forall id :: id in queue <==> id == queue[0] || id in queue[1..]
  {
    assert started + [queue[0]] + queue[1..] == started + queue;
    QueueIsDistinct(started, queue, arrival);
    assert queue == [queue[0]] + queue[1..];
  }

  lemma SlotFreedIsSafe(limits: Limits, s: State, id: TaskId)
    requires Safe(limits, s) && id in s.fates && s.fates[id] == Running && s.queue == []
    ensures Safe(limits, Released(s, id))
  {
    StopsRunning(s.fates, id, Done);
  }

  lemma SlotHandedOverIsSafe(limits: Limits, s: State, id: TaskId)
    requires Safe(limits, s) && id in s.fates && s.fates[id] == Running && s.queue != []
    ensures Safe(limits, Released(s, id))
  {
    StopsRunning(s.fates, id, Done);
    HandOverKeepsOrder(s.started, s.queue, s.arrival);
    assert s.queue[0] in s.queue;
    StartsRunning(s.fates[id := Done], s.queue[0]);
  }

  lemma RemovedIsGone(queue: seq<TaskId>, i: nat)
    requires Distinct(queue) && i < |queue|
    ensures forall id :: id in queue[..i] + queue[i + 1..] <==> id in queue && id != queue[i]
  {}

  /** `indexOf` finds the task a listener is for, so `splice` removes it and no other. */
  lemma AbortFindsItsTask(limits: Limits, s: State, id: TaskId)
    requires Safe(limits, s) && id in s.listening
    ensures IndexOf(s.queue, id) >= 0
    ensures forall other :: other in OnAbort(s, id).queue <==> other in s.queue && other != id
    ensures |OnAbort(s, id).queue| == |s.queue| - 1
  {
    assert id in s.queue;
    QueueIsDistinct(s.started, s.queue, s.arrival);
    RemovedIsGone(s.queue, IndexOf(s.queue, id));
  }

  lemma RemovalKeepsOrder(front: seq<TaskId>, queue: seq<TaskId>, i: nat, arrival: map<TaskId, nat>)
    requires i < |queue| && InOrder(front + queue, arrival)
    ensures InOrder(front + (queue[..i] + queue[i + 1..]), arrival)
  {
    var before, after := front + queue, front + (queue[..i] + queue[i + 1..]);
    assert forall k | 0 <= k < |after| :: after[k] == before[if k < |front| + i then k else k + 1];
  }

  lemma AbortIsSafe(limits: Limits, s: State, e: Event)
    requires Safe(limits, s) && e.Abort?
    ensures Safe(limits, Next(limits, s, e))
  {
    if e.id in s.listening {
      AbortFindsItsTask(limits, s, e.id);
      RemovalKeepsOrder(s.started, s.queue, IndexOf(s.queue, e.id), s.arrival);
      assert e.id in s.queue;
      NeverRunning(s.fates, e.id, Aborted);
    }
  }

  lemma NextIsSafe(limits: Limits, s: State, e: Event)
    requires Safe(limits, s) && Enabled(s, e)
    ensures Safe(limits, Next(limits, s, e))
  {
    match e
    case Arrive(_, _, _) => AcquireIsSafe(limits, s, e);
    case Abort(_) => AbortIsSafe(limits, s, e);
    case Finish(id) => if s.queue == [] { SlotFreedIsSafe(limits, s, id); } else { SlotHandedOverIsSafe(limits, s, id); }
  }

  // --- Schedules ---

  ghost predicate Scheduled(limits: Limits, s: State, events: seq<Event>)
    decreases |events|
  {
    events != [] ==> Enabled(s, events[0]) && Scheduled(limits, Next(limits, s, events[0]), events[1..])
  }

  function After(limits: Limits, s: State, events: seq<Event>): State
    decreases |events|
  {
    if events == [] then s else After(limits, Next(limits, s, events[0]), events[1..])
  }

  /** Over every schedule of arrivals, aborts and completions the limiter is safe. */
  lemma {:induction false} EveryScheduleIsSafe(limits: Limits, s: State, events: seq<Event>)
    requires Safe(limits, s) && Scheduled(limits, s, events)
    ensures Safe(limits, After(limits, s, events))
    decreases |events|
  {
    if events != [] {
      NextIsSafe(limits, s, events[0]);
      EveryScheduleIsSafe(limits, Next(limits, s, events[0]), events[1..]);
    }
  }

  /** What a fate can still become. */
  predicate Becomes(a: Fate, b: Fate) {
    a == b || (a == Waiting && b != Busy) || (a == Running && b == Done)
  }

  lemma FateMoves(limits: Limits, s: State, e: Event, id: TaskId)
    requires Safe(limits, s) && Enabled(s, e) && id in s.fates
    ensures id in Next(limits, s, e).fates && Becomes(s.fates[id], Next(limits, s, e).fates[id])
  {}

  /** A task has one fate: once refused, aborted or done it stays so, and one that started is not refused or aborted. */
  lemma {:induction false} FatesAreFinal(limits: Limits, s: State, events: seq<Event>, id: TaskId)
    requires Safe(limits, s) && Scheduled(limits, s, events) && id in s.fates
    ensures id in After(limits, s, events).fates && Becomes(s.fates[id], After(limits, s, events).fates[id])
    decreases |events|
  {
    if events != [] {
      NextIsSafe(limits, s, events[0]);
      FateMoves(limits, s, events[0], id);
      FatesAreFinal(limits, Next(limits, s, events[0]), events[1..], id);
    }
  }

  /** Tasks start in the order they arrived. */
  lemma StartsAreFifo(limits: Limits, events: seq<Event>, i: nat, j: nat)
    requires Scheduled(limits, INITIAL, events)
    requires i < j < |After(limits, INITIAL, events).started|
    ensures var s := After(limits, INITIAL, events);
            && s.started[i] in s.arrival && s.started[j] in s.arrival
            && s.arrival[s.started[i]] < s.arrival[s.started[j]]
  {
    InitiallySafe(limits);
    EveryScheduleIsSafe(limits, INITIAL, events);
    var s := After(limits, INITIAL, events);
    assert (s.started + s.queue)[i] == s.started[i] && (s.started + s.queue)[j] == s.started[j];
  }

  // --- When a waiting task starts ---

  function Finishes(events: seq<Event>): nat {
    if events == [] then 0 else (if events[0].Finish? then 1 else 0) + Finishes(events[1..])
  }

  /** The abort takes a task waiting ahead of `id` out of the queue. */
  predicate AbortsAhead(s: State, e: Event, id: TaskId) {
    e.Abort? && e.id in s.listening && IndexOf(s.queue, e.id) < IndexOf(s.queue, id)
  }

  /** The tasks ahead of `id` that abort while it waits. */
  function AbortedAhead(limits: Limits, s: State, events: seq<Event>, id: TaskId): nat
    decreases |events|
  {
    if events == [] || id !in s.queue then 0
    else (if AbortsAhead(s, events[0], id) then 1 else 0) + AbortedAhead(limits, Next(limits, s, events[0]), events[1..], id)
  }

  lemma IndexIsUnique(queue: seq<TaskId>, i: nat)
    requires Distinct(queue) && i < |queue|
    ensures IndexOf(queue, queue[i]) == i
  {}

  lemma PlaceAfterStart(s: State, id: TaskId)
    requires s.queue != [] && id == s.queue[0] && InOrder(s.started + s.queue, s.arrival)
    ensures id !in s.queue[1..]
  {
    HandOverKeepsOrder(s.started, s.queue, s.arrival);
  }

  lemma PlaceAfterArrival(queue: seq<TaskId>, id: TaskId, arrived: TaskId)
    requires Distinct(queue + [arrived]) && id in queue
    ensures IndexOf(queue + [arrived], id) == IndexOf(queue, id)
  {
    IndexIsUnique(queue + [arrived], IndexOf(queue, id));
  }

  lemma PlaceAfterRelease(queue: seq<TaskId>, id: TaskId)
    requires Distinct(queue) && id in queue && id != queue[0]
    ensures id in queue[1..] && IndexOf(queue[1..], id) == IndexOf(queue, id) - 1
  {}

  lemma PlaceAfterRemoval(queue: seq<TaskId>, id: TaskId, i: nat)
    requires Distinct(queue) && i < |queue| && id in queue && id != queue[i]
    ensures var after := queue[..i] + queue[i + 1..];
            && id in after
            && IndexOf(after, id) == IndexOf(queue, id) - (if i < IndexOf(queue, id) then 1 else 0)
  {}

  /** Where `id` stands after an event: still waiting at `place`, or started when that is negative. */
  ghost predicate StandsAt(s: State, next: State, id: TaskId, place: int) {
    if place >= 0 then id in next.queue && IndexOf(next.queue, id) == place
    else id !in next.queue && id in next.fates && next.fates[id] == Running && next.started == s.started + [id]
  }

  lemma ReleaseMovesPlace(s: State, finished: TaskId, id: TaskId)
    requires id in s.queue && InOrder(s.started + s.queue, s.arrival)
    ensures StandsAt(s, Released(s, finished), id, IndexOf(s.queue, id) - 1)
  {
    QueueIsDistinct(s.started, s.queue, s.arrival);
    if id == s.queue[0] {
      PlaceAfterStart(s, id);
    } else {
      PlaceAfterRelease(s.queue, id);
    }
  }

  lemma AbortMovesPlace(limits: Limits, s: State, other: TaskId, id: TaskId)
    requires Safe(limits, s) && id in s.queue && other != id
    ensures StandsAt(s, OnAbort(s, other), id, IndexOf(s.queue, id) - (if AbortsAhead(s, Abort(other), id) then 1 else 0))
  {
    if other in s.listening {
      AbortFindsItsTask(limits, s, other);
      QueueIsDistinct(s.started, s.queue, s.arrival);
      PlaceAfterRemoval(s.queue, id, IndexOf(s.queue, other));
    }
  }

  lemma ArrivalKeepsPlace(limits: Limits, s: State, e: Event, id: TaskId)
    requires Bookkeeping(s) && InOrder(s.started + s.queue, s.arrival) && id in s.queue && e.Arrive? && Enabled(s, e)
    ensures StandsAt(s, Next(limits, s, e), id, IndexOf(s.queue, id))
  {
    QueueIsDistinct(s.started, s.queue, s.arrival);
    assert e.id !in s.queue;
    PlaceAfterArrival(s.queue, id, e.id);
  }

  /** One event moves a waiting task up a place, or starts it, exactly when a slot is released or one ahead aborts. */
  lemma PlaceMoves(limits: Limits, s: State, e: Event, id: TaskId)
    requires Safe(limits, s) && Enabled(s, e) && id in s.queue && e != Abort(id)
    ensures StandsAt(s, Next(limits, s, e), id, IndexOf(s.queue, id) - (if e.Finish? || AbortsAhead(s, e, id) then 1 else 0))
  {
    match e
    case Arrive(_, _, _) => ArrivalKeepsPlace(limits, s, e, id);
    case Finish(finished) => ReleaseMovesPlace(s, finished, id);
    case Abort(other) => AbortMovesPlace(limits, s, other, id);
  }

  /** A task that was started waits no more. */
  lemma {:induction false} StartedNeverWaits(limits: Limits, s: State, events: seq<Event>, id: TaskId)
    requires Safe(limits, s) && Scheduled(limits, s, events) && id in s.fates && id !in s.queue
    ensures id !in After(limits, s, events).queue
  {
    FatesAreFinal(limits, s, events, id);
    EveryScheduleIsSafe(limits, s, events);
  }

  /**
   A waiting task starts with exactly as many releases as there are tasks ahead
   of it that do not abort, plus one: until then it waits, with that many left.
   */
  lemma {:induction false} WaitsForItsTurn(limits: Limits, s: State, events: seq<Event>, id: TaskId)
    requires Safe(limits, s) && Scheduled(limits, s, events) && id in s.queue && Abort(id) !in events
    ensures var left := IndexOf(s.queue, id) - Finishes(events) - AbortedAhead(limits, s, events, id);
            var after := After(limits, s, events);
            && (id in after.queue <==> left >= 0)
            && (left >= 0 ==> IndexOf(after.queue, id) == left)
            && (left < 0 ==> id in after.started)
    decreases |events|
  {
    if events != [] {
      var next := Next(limits, s, events[0]);
      NextIsSafe(limits, s, events[0]);
      PlaceMoves(limits, s, events[0], id);
      if id in next.queue {
        WaitsForItsTurn(limits, next, events[1..], id);
      } else {
        StartedNeverWaits(limits, next, events[1..], id);
        FatesAreFinal(limits, next, events[1..], id);
        EveryScheduleIsSafe(limits, next, events[1..]);
      }
    }
  }

  // --- The limiter itself: each method is one event, so `EveryScheduleIsSafe` speaks of it ---

  class TaskLimiter {
    const limits: Limits
    var active: int
    var queue: seq<TaskId>
    var listening: set<TaskId>
    ghost var fates: map<TaskId, Fate>
    ghost var arrival: map<TaskId, nat>
    ghost var started: seq<TaskId>

    ghost function Current(): State
      reads this
    {
      State(active, queue, listening, fates, arrival, started)
    }

    constructor (limits: Limits)
      ensures Current() == INITIAL && this.limits == limits
    {
      this.limits := limits;
      active, queue, listening := 0, [], {};
      fates, arrival, started := map[], map[], [];
    }

    /** A slot at once, a place in the queue, or a refusal. */
    method Acquire(id: TaskId, hasSignal: bool, alreadyAborted: bool) returns (fate: Fate)
      requires Enabled(Current(), Arrive(id, hasSignal, alreadyAborted))
      modifies this
      ensures Current() == Next(limits, old(Current()), Arrive(id, hasSignal, alreadyAborted))
      ensures fate == fates[id]
    {
      arrival := arrival[id := |arrival|];
      if alreadyAborted {
        fate := Aborted;
      } else if active < limits.concurrency {
        active := active + 1;
        started := started + [id];
        fate := Running;
      } else if |queue| >= limits.queueSize {
        fate := Busy;
      } else {
        queue := queue + [id];
        if hasSignal { listening := listening + {id}; }
        fate := Waiting;
      }
      fates := fates[id := fate];
    }

    /** The abort listener of a waiting task. */
    method Abort(id: TaskId)
      modifies this
      ensures Current() == Next(limits, old(Current()), Event.Abort(id))
    {
      if id in listening {
        var index := IndexOf(queue, id);
        queue := SpliceOne(queue, index);
        listening := listening - {id};
        fates := fates[id := Aborted];
      }
    }

    method Release(id: TaskId)
      requires Enabled(Current(), Finish(id))
      modifies this
      ensures Current() == Next(limits, old(Current()), Finish(id))
    {
      fates := fates[id := Done];
      if queue != [] {
        var next := queue[0];
        queue := queue[1..];
        listening := listening - {next};
        fates := fates[next := Running];
        started := started + [next];
      } else {
        active := active - 1;
      }
    }
  }
}
