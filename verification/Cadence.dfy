/**
 The status page's memory: each run reads the snapshot of the run before, and from
 two timestamps derives whether to post a change or a reminder.
 */
module Cadence {
  import opened Wrappers

  datatype Health = Healthy | Degraded | Unhealthy

  /** A timestamp of a published file, in milliseconds where it parses. */
  datatype Stamp = Missing | Unreadable | At(ms: int)

  datatype Status = Status(health: Health, previousHealth: Option<Health>, since: Stamp, previousSince: Stamp)

  datatype Snapshot = Snapshot(checkedAt: Stamp, previousCheckedAt: Stamp, service: Option<Status>)

  const SIX_HOURS: int := 6 * 60 * 60 * 1000

  // --- One run ---

  function Passed(endpoints: seq<bool>): nat {
    if endpoints == [] then 0 else (if endpoints[0] then 1 else 0) + Passed(endpoints[1..])
  }

  function RollUp(endpoints: seq<bool>): Health {
    if Passed(endpoints) == |endpoints| then Healthy else if Passed(endpoints) == 0 then Unhealthy else Degraded
  }

  lemma {:induction false} PassedExtremes(endpoints: seq<bool>)
    ensures Passed(endpoints) <= |endpoints|
    ensures Passed(endpoints) == |endpoints| <==> false !in endpoints
    ensures Passed(endpoints) == 0 <==> true !in endpoints
  {
    if endpoints != [] {
      PassedExtremes(endpoints[1..]);
      assert endpoints == [endpoints[0]] + endpoints[1..];
    }
  }

  /** Down when every endpoint fails, degraded when some do; a service without endpoints is healthy. */
  lemma RollUpExactly(endpoints: seq<bool>)
    ensures RollUp(endpoints) == Healthy <==> false !in endpoints
    ensures RollUp(endpoints) == Unhealthy <==> endpoints != [] && true !in endpoints
    ensures RollUp(endpoints) == Degraded <==> true in endpoints && false in endpoints
  {
    PassedExtremes(endpoints);
    if endpoints != [] { assert endpoints[0] in endpoints; }
  }

  /** The clock of the current state is carried forward while the health stays. */
  function WithHistory(health: Health, previous: Option<Snapshot>, checkedAt: Stamp): Status {
    var before := if previous.Some? then previous.value.service else None;
    var same := before.Some? && before.value.health == health;
    Status(
      health,
      if before.Some? then Some(before.value.health) else None,
      if same && before.value.since != Missing then before.value.since else checkedAt,
      if before.Some? then before.value.since else Missing)
  }

  function NextSnapshot(health: Health, previous: Option<Snapshot>, checkedAt: Stamp): Snapshot {
    Snapshot(
      checkedAt,
      if previous.Some? then previous.value.checkedAt else Missing,
      Some(WithHistory(health, previous, checkedAt)))
  }

  datatype Reason = Changed | FirstSighting | Reminder(downFor: int)

  function ReasonToPost(service: Status, checkedAt: Stamp, previousCheckedAt: Stamp): Option<Reason> {
    if service.previousHealth.None? then
      if service.health == Healthy then None else Some(FirstSighting)
    else if service.previousHealth.value != service.health then Some(Changed)
    else if service.health == Healthy then None
    else if !(service.since.At? && checkedAt.At? && previousCheckedAt.At?) then None
    else
      var start, now, before := service.since.ms, checkedAt.ms, previousCheckedAt.ms;
      if (now - start) / SIX_HOURS > (before - start) / SIX_HOURS then Some(Reminder(now - start)) else None
  }

  /** Some multiple of six hours from `start` is past `before` and not past `now`. */
  ghost predicate PassesMultiple(start: int, before: int, now: int) {
    exists k: int :: IsPassed(start, before, now, k)
  }

  ghost predicate IsPassed(start: int, before: int, now: int, k: int) {
    before < start + k * 21_600_000 <= now
  }

  lemma CrossingExactly(start: int, before: int, now: int)
    ensures (now - start) / SIX_HOURS > (before - start) / SIX_HOURS <==> PassesMultiple(start, before, now)
  {
    if (now - start) / SIX_HOURS > (before - start) / SIX_HOURS {
      assert IsPassed(start, before, now, (now - start) / SIX_HOURS);
    }
    if k: int :| IsPassed(start, before, now, k) {
      assert before - start < k * SIX_HOURS <= now - start;
    }
  }

  /**
   What any snapshot has posted, its timestamps readable or not: a first sighting
   or a change as its two healths say, and a reminder exactly when a bad state is
   unchanged, all three times are known, and a multiple of six hours has passed
   since the run before.
   */
  lemma ReasonExactly(service: Status, checkedAt: Stamp, previousCheckedAt: Stamp)
    ensures var reason := ReasonToPost(service, checkedAt, previousCheckedAt);
      && (reason == Some(FirstSighting) <==> service.previousHealth == None && service.health != Healthy)
      && (reason == Some(Changed) <==> service.previousHealth.Some? && service.previousHealth != Some(service.health))
      && (reason.Some? && reason.value.Reminder? <==>
            && service.previousHealth == Some(service.health) && service.health != Healthy
            && service.since.At? && checkedAt.At? && previousCheckedAt.At?
            && PassesMultiple(service.since.ms, previousCheckedAt.ms, checkedAt.ms))
      && (reason.Some? && reason.value.Reminder? ==> reason.value.downFor == checkedAt.ms - service.since.ms)
  {
    if service.since.At? && checkedAt.At? && previousCheckedAt.At? {
      CrossingExactly(service.since.ms, previousCheckedAt.ms, checkedAt.ms);
    }
  }

  /** The clock starts again at this run exactly when the snapshot before has no clock of this very health to carry on. */
  lemma ClockExactly(health: Health, previous: Option<Snapshot>, checkedAt: Stamp)
    ensures var next := NextSnapshot(health, previous, checkedAt);
      && next.service.Some? && next.service.value.health == health && next.checkedAt == checkedAt
      && (forall s | previous == Some(s) :: next.previousCheckedAt == s.checkedAt)
      && (forall s, before | previous == Some(s) && s.service == Some(before) ::
            && next.service.value.previousHealth == Some(before.health) && next.service.value.previousSince == before.since
            && (before.health == health && before.since != Missing ==> next.service.value.since == before.since)
            && (before.health != health || before.since == Missing ==> next.service.value.since == checkedAt))
      && (previous == None || previous.value.service == None ==>
            next.service.value == Status(health, None, checkedAt, Missing))
      && (previous == None ==> next.previousCheckedAt == Missing)
  {}

  // --- Runs that each read the snapshot of the one before ---

  datatype Run = Run(at: int, health: Health)

  function Published(runs: seq<Run>, i: nat): Snapshot
    requires i < |runs|
  {
    NextSnapshot(runs[i].health, if i == 0 then None else Some(Published(runs, i - 1)), At(runs[i].at))
  }

  function Posted(runs: seq<Run>, i: nat): Option<Reason>
    requires i < |runs|
  {
    var snapshot := Published(runs, i);
    ReasonToPost(snapshot.service.value, snapshot.checkedAt, snapshot.previousCheckedAt)
  }

  /** From `start` to `i` the health is one, and it was not so before. */
  ghost predicate Streak(runs: seq<Run>, start: nat, i: nat) {
    && start <= i < |runs|
    && (forall k | start <= k <= i :: runs[k].health == runs[i].health)
    && (start > 0 ==> runs[start - 1].health != runs[i].health)
  }

  /** `since` is the first run of the streak, and the state left behind is remembered with its own. */
  lemma {:induction false} SinceIsTheStreaks(runs: seq<Run>, start: nat, i: nat)
    requires Streak(runs, start, i)
    ensures var service := Published(runs, i).service.value;
            && service.health == runs[i].health && service.since == At(runs[start].at)
            && service.previousHealth == (if i == 0 then None else Some(runs[i - 1].health))
  {
    if i > start {
      SinceIsTheStreaks(runs, start, i - 1);
    }
  }

  /** When a state changes, the snapshot still has the start of the streak it ended. */
  lemma LeftStateIsRemembered(runs: seq<Run>, start: nat, i: nat)
    requires Streak(runs, start, i) && i + 1 < |runs|
    ensures Published(runs, i + 1).service.value.previousSince == At(runs[start].at)
  {
    SinceIsTheStreaks(runs, start, i);
  }

  /** The six-hour multiples passed from the streak's start to a run. */
  function Multiples(runs: seq<Run>, start: nat, i: nat): int
    requires start < |runs| && i < |runs|
  {
    (runs[i].at - runs[start].at) / 21_600_000
  }

  /** What is posted, run by run: a change, a first sighting of something bad, or the first run past a multiple of six hours of an outage. */
  lemma PostedExactly(runs: seq<Run>, start: nat, i: nat)
    requires Streak(runs, start, i)
    ensures Posted(runs, i) ==
            if i == start then
              (if i > 0 then Some(Changed) else if runs[i].health != Healthy then Some(FirstSighting) else None)
            else if runs[i].health != Healthy && Multiples(runs, start, i) > Multiples(runs, start, i - 1) then
              Some(Reminder(runs[i].at - runs[start].at))
            else None
  {
    SinceIsTheStreaks(runs, start, i);
  }

  /** The reminders posted after the run `from` up to the run `to`. */
  function Reminders(runs: seq<Run>, from: nat, to: nat): nat
    requires from <= to < |runs|
  {
    if from == to then 0
    else (if Posted(runs, to).Some? && Posted(runs, to).value.Reminder? then 1 else 0) + Reminders(runs, from, to - 1)
  }

  ghost predicate InTime(runs: seq<Run>) {
    forall i, j | 0 <= i < j < |runs| :: runs[i].at <= runs[j].at
  }

  lemma MultiplesGrow(runs: seq<Run>, start: nat, i: nat)
    requires InTime(runs) && start <= i && i + 1 < |runs|
    ensures 0 <= Multiples(runs, start, i) <= Multiples(runs, start, i + 1)
  {}

  /** No gap between runs passes two multiples. */
  ghost predicate NoneSkipped(runs: seq<Run>, start: nat, i: nat)
    requires start <= i < |runs|
  {
    forall k | start < k <= i :: Multiples(runs, start, k) <= Multiples(runs, start, k - 1) + 1
  }

  lemma StreakBefore(runs: seq<Run>, start: nat, i: nat)
    requires Streak(runs, start, i) && start < i
    ensures Streak(runs, start, i - 1)
  {}

  lemma NoneSkippedSoFar(runs: seq<Run>, start: nat, i: nat)
    requires start < i < |runs|
    ensures NoneSkipped(runs, start, i)
       <==> NoneSkipped(runs, start, i - 1) && Multiples(runs, start, i) <= Multiples(runs, start, i - 1) + 1
  {}

  lemma RemindersGrow(runs: seq<Run>, start: nat, i: nat)
    requires Streak(runs, start, i) && start < i && runs[i].health != Healthy
    ensures Reminders(runs, start, i) == Reminders(runs, start, i - 1)
                                         + if Multiples(runs, start, i) > Multiples(runs, start, i - 1) then 1 else 0
  {
    PostedExactly(runs, start, i);
  }

  /** In an outage there are no more reminders than six-hour multiples passed, and as many exactly when no gap passes two. */
  lemma {:induction false} RemindersFollowTheClock(runs: seq<Run>, start: nat, i: nat)
    requires InTime(runs) && Streak(runs, start, i) && runs[i].health != Healthy
    ensures Reminders(runs, start, i) <= Multiples(runs, start, i)
    ensures Reminders(runs, start, i) == Multiples(runs, start, i) <==> NoneSkipped(runs, start, i)
  {
    if i > start {
      StreakBefore(runs, start, i);
      RemindersFollowTheClock(runs, start, i - 1);
      RemindersGrow(runs, start, i);
      MultiplesGrow(runs, start, i - 1);
      NoneSkippedSoFar(runs, start, i);
    }
  }

  lemma ShortGapPassesOne(runs: seq<Run>, start: nat, k: nat)
    requires InTime(runs) && start < k < |runs| && runs[k].at - runs[k - 1].at <= 21_600_000
    ensures Multiples(runs, start, k) <= Multiples(runs, start, k - 1) + 1
  {}

  /** With runs at most six hours apart, the reminders of an outage are exactly the multiples of six hours it has lasted. */
  lemma RegularRunsRemindOnTime(runs: seq<Run>, start: nat, i: nat)
    requires InTime(runs) && Streak(runs, start, i) && runs[i].health != Healthy
    requires forall k | start < k <= i :: runs[k].at - runs[k - 1].at <= 21_600_000
    ensures Reminders(runs, start, i) == Multiples(runs, start, i)
  {
    forall k | start < k <= i ensures Multiples(runs, start, k) <= Multiples(runs, start, k - 1) + 1 {
      ShortGapPassesOne(runs, start, k);
    }
    assert NoneSkipped(runs, start, i);
    RemindersFollowTheClock(runs, start, i);
  }

  /** While a service stays healthy nothing is posted after the run that found it so. */
  lemma {:induction false} HealthIsSilent(runs: seq<Run>, start: nat, i: nat)
    requires Streak(runs, start, i) && runs[i].health == Healthy
    ensures forall k | start < k <= i :: Posted(runs, k).None?
  {
    forall k | start < k <= i ensures Posted(runs, k).None? {
      assert Streak(runs, start, k);
      PostedExactly(runs, start, k);
    }
  }
}
