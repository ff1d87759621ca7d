/**
 What each event makes of the tasks, told by their fates, their order of arrival
 and their signals alone: who is taken, who starts next, and whose abort counts.
 */
module LimiterFates {
  import opened Limiter

  ghost function Having(fates: map<TaskId, Fate>, fate: Fate): set<TaskId> {
    set id | id in fates && fates[id] == fate
  }

  lemma {:induction false} DistinctAreCounted(ids: seq<TaskId>, elements: set<TaskId>)
    requires Distinct(ids) && forall id :: id in ids <==> id in elements
    ensures |ids| == |elements|
  {
    if ids == [] {
      assert elements == {};
    } else {
      assert ids[0] in elements && ids[0] !in ids[1..];
      assert ids == [ids[0]] + ids[1..];
      DistinctAreCounted(ids[1..], elements - {ids[0]});
    }
  }

  lemma QueueIsTheWaiting(limits: Limits, s: State)
    requires Safe(limits, s)
    ensures |s.queue| == |Having(s.fates, Waiting)| && s.active == |Having(s.fates, Running)|
  {
    QueueIsDistinct(s.started, s.queue, s.arrival);
    DistinctAreCounted(s.queue, Having(s.fates, Waiting));
    assert Having(s.fates, Running) == RunningTasks(s.fates);
  }

  /**
   An arrival whose signal has not aborted runs exactly while a slot is free,
   waits exactly when all are taken and fewer than `queueSize` tasks wait, and is
   refused exactly when that many do; no other task is touched.
   */
  lemma ArrivalExactly(limits: Limits, s: State, id: TaskId, hasSignal: bool, alreadyAborted: bool)
    requires Safe(limits, s) && Enabled(s, Arrive(id, hasSignal, alreadyAborted))
    ensures var fates := Next(limits, s, Arrive(id, hasSignal, alreadyAborted)).fates;
            var running, waiting := |Having(s.fates, Running)|, |Having(s.fates, Waiting)|;
      && id in fates && fates == s.fates[id := fates[id]]
      && (fates[id] == Aborted <==> alreadyAborted)
      && (fates[id] == Running <==> !alreadyAborted && running < limits.concurrency)
      && (fates[id] == Waiting <==> !alreadyAborted && running == limits.concurrency && waiting < limits.queueSize)
      && (fates[id] == Busy <==> !alreadyAborted && running == limits.concurrency && waiting == limits.queueSize)
  {
    QueueIsTheWaiting(limits, s);
  }

  /** `id` waits, and everything else that waits arrived after it. */
  ghost predicate IsFirstWaiting(s: State, id: TaskId)
    requires s.arrival.Keys == s.fates.Keys
  {
    && id in s.fates && s.fates[id] == Waiting
    && forall other | other in s.fates && s.fates[other] == Waiting && other != id :: s.arrival[id] < s.arrival[other]
  }

  lemma FirstWaitingIsNext(limits: Limits, s: State, id: TaskId)
    requires Safe(limits, s)
    ensures IsFirstWaiting(s, id) <==> s.queue != [] && id == s.queue[0]
  {
    var all, n := s.started + s.queue, |s.started|;
    if s.queue != [] {
      var first := s.queue[0];
      assert first in s.queue && all[n] == first;
      forall other | other in s.fates && s.fates[other] == Waiting && other != first ensures s.arrival[first] < s.arrival[other] {
        assert other in s.queue;
        var j :| 0 <= j < |s.queue| && s.queue[j] == other;
        assert all[n + j] == other;
      }
    }
  }

  /** A finished task's slot goes to the waiting task that arrived first, and no other fate changes. */
  lemma CompletionExactly(limits: Limits, s: State, id: TaskId)
    requires Safe(limits, s) && Enabled(s, Finish(id))
    ensures var fates := Next(limits, s, Finish(id)).fates;
      && fates.Keys == s.fates.Keys && fates[id] == Done
      && forall other | other in s.fates && other != id ::
           fates[other] == if IsFirstWaiting(s, other) then Running else s.fates[other]
  {
    forall other | other in s.fates ensures IsFirstWaiting(s, other) <==> s.queue != [] && other == s.queue[0] {
      FirstWaitingIsNext(limits, s, other);
    }
    if s.queue != [] { assert s.queue[0] in s.queue; }
  }

  // --- Whose abort counts ---

  lemma StaysListening(limits: Limits, s: State, e: Event, id: TaskId)
    requires Safe(limits, s) && Enabled(s, e) && id in s.fates
    ensures id in Next(limits, s, e).listening <==> id in Next(limits, s, e).queue && id in s.listening
  {
    match e
    case Arrive(_, _, _) =>
    case Abort(other) => if other in s.listening { AbortFindsItsTask(limits, s, other); }
    case Finish(_) => if s.queue != [] { HandOverKeepsOrder(s.started, s.queue, s.arrival); }
  }

  /** A listener stays for as long as its task waits. */
  lemma {:induction false} ListensWhileWaiting(limits: Limits, s: State, events: seq<Event>, id: TaskId)
    requires Safe(limits, s) && Scheduled(limits, s, events) && id in s.fates
    ensures id in After(limits, s, events).listening <==> id in After(limits, s, events).queue && id in s.listening
    decreases |events|
  {
    if events != [] {
      var next := Next(limits, s, events[0]);
      NextIsSafe(limits, s, events[0]);
      FateMoves(limits, s, events[0], id);
      StaysListening(limits, s, events[0], id);
      ListensWhileWaiting(limits, next, events[1..], id);
      if id !in next.queue { StartedNeverWaits(limits, next, events[1..], id); }
    }
  }

  lemma StillKnown(limits: Limits, s: State, e: Event, id: TaskId)
    requires Safe(limits, s) && Enabled(s, e)
    ensures Safe(limits, Next(limits, s, e))
    ensures id in Next(limits, s, e).fates <==> id in s.fates || (e.Arrive? && e.id == id)
    ensures id in s.fates && e.Arrive? ==> e.id != id
    ensures e.Arrive? && e.id == id ==>
      (id in Next(limits, s, e).listening <==> id in Next(limits, s, e).queue && e == Arrive(id, true, false))
  {
    NextIsSafe(limits, s, e);
    if id in s.fates { FateMoves(limits, s, e, id); }
  }

  lemma FirstOrLater(events: seq<Event>, e: Event)
    requires events != []
    ensures e in events <==> e == events[0] || e in events[1..]
  {
    assert events == [events[0]] + events[1..];
  }

  lemma {:induction false} ArrivesOnce(limits: Limits, s: State, events: seq<Event>, e: Event)
    requires Safe(limits, s) && Scheduled(limits, s, events) && e.Arrive? && e.id in s.fates
    ensures e !in events
    decreases |events|
  {
    if events != [] {
      StillKnown(limits, s, events[0], e.id);
      ArrivesOnce(limits, Next(limits, s, events[0]), events[1..], e);
      FirstOrLater(events, e);
    }
  }

  lemma ArrivedListens(limits: Limits, s: State, events: seq<Event>, id: TaskId)
    requires Safe(limits, s) && Scheduled(limits, s, events) && id !in s.fates
    requires events != [] && events[0].Arrive? && events[0].id == id
    ensures var after := After(limits, s, events);
            id in after.listening <==> id in after.queue && Arrive(id, true, false) in events
  {
    var next := Next(limits, s, events[0]);
    StillKnown(limits, s, events[0], id);
    ListensWhileWaiting(limits, next, events[1..], id);
    ArrivesOnce(limits, next, events[1..], Arrive(id, true, false));
    FirstOrLater(events, Arrive(id, true, false));
    if id !in next.queue { StartedNeverWaits(limits, next, events[1..], id); }
  }

  /** A task that arrives in the schedule listens exactly while it waits, if it came with a signal. */
  lemma {:induction false} ListensExactly(limits: Limits, s: State, events: seq<Event>, id: TaskId)
    requires Safe(limits, s) && Scheduled(limits, s, events) && id !in s.fates
    ensures var after := After(limits, s, events);
            id in after.listening <==> id in after.queue && Arrive(id, true, false) in events
    decreases |events|
  {
    if events != [] {
      if events[0].Arrive? && events[0].id == id {
        ArrivedListens(limits, s, events, id);
      } else {
        StillKnown(limits, s, events[0], id);
        ListensExactly(limits, Next(limits, s, events[0]), events[1..], id);
        FirstOrLater(events, Arrive(id, true, false));
      }
    }
  }

  /**
   After any schedule, a signal's abort takes its task out of the queue if the
   task waits and came with that signal, and otherwise does nothing.
   */
  lemma AbortExactly(limits: Limits, events: seq<Event>, id: TaskId)
    requires Scheduled(limits, INITIAL, events)
    ensures var s := After(limits, INITIAL, events);
            var next := Next(limits, s, Abort(id));
      if id in s.fates && s.fates[id] == Waiting && Arrive(id, true, false) in events
      then next.fates == s.fates[id := Aborted] && next.started == s.started && id !in next.queue
      else next == s
  {
    InitiallySafe(limits);
    EveryScheduleIsSafe(limits, INITIAL, events);
    ListensExactly(limits, INITIAL, events, id);
    var s := After(limits, INITIAL, events);
    if id in s.listening { AbortFindsItsTask(limits, s, id); }
  }
}
