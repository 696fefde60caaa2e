// Any number of worker instances on one lease row: fencing, disjoint leases, failure counting.
module WorkerRuns {
  import opened Backoff
  import opened Common
  import opened Worker

  // `outcomes` is the history of recorded poll outcomes, `recorder` the instance that recorded the last of them.
  datatype Sys = Sys(row: Option<WorkerRow>, outcomes: seq<bool>, recorder: Option<string>)

  // The transactions of any instance, each with the time it was given.
  datatype Event =
    | Acquire(me: string, now: real, interval: real)
    | Update(me: string, now: real, report: Report)
    | Release(me: string, now: real)

  // Each instance keeps to one timing, and so to one lease length.
  type Timings = string -> Timing

  // A failure is recorded with a delay of the instance's timing, for a failure count it read at any earlier time.
  ghost predicate IsPossible(timings: Timings, e: Event) {
    e.Update? && e.report.Failed? ==>
      exists failures: nat, jitter: real ::
        failures >= 1 && e.report.backoff == Delay(timings(e.me), failures, jitter)
  }

  function Next(timings: Timings, s: Sys, e: Event): Sys {
    match e
    case Acquire(me, now, interval) =>
      if HeldByOther(s.row, me, now) then s
      else s.(row := Some(Acquired(s.row, me, now, LeaseSeconds(timings(me)), interval)))
    case Update(me, now, report) =>
      if !Holds(s.row, me) then s
      else Sys(Some(Updated(s.row.value, now, LeaseSeconds(timings(me)), report)),
               s.outcomes + if report.PollStarted? then [] else [report.Succeeded?],
               if report.PollStarted? then s.recorder else Some(me))
    case Release(me, _) => s.(row := Released(s.row, me))
  }

  ghost predicate IsRun(timings: Timings, ss: seq<Sys>, es: seq<Event>) {
    |ss| == |es| + 1
    && forall k :: 0 <= k < |es| ==> IsPossible(timings, es[k]) && ss[k + 1] == Next(timings, ss[k], es[k])
  }

  // The event gives its instance a lease, new or renewed.
  predicate Grants(s: Sys, e: Event) {
    (e.Acquire? && !HeldByOther(s.row, e.me, e.now)) || (e.Update? && Holds(s.row, e.me))
  }

  predicate ClockAdvances(es: seq<Event>) {
    forall i, j :: 0 <= i <= j < |es| ==> es[i].now <= es[j].now
  }

  lemma {:induction false} CountsTrailingFailures(timings: Timings, ss: seq<Sys>, es: seq<Event>, k: nat)
    requires IsRun(timings, ss, es) && k < |ss| && FailuresOf(ss[0].row) == Streak(ss[0].outcomes)
    ensures FailuresOf(ss[k].row) == Streak(ss[k].outcomes)
  {
    hide LeaseSeconds, IsPossible, HeldByOther, Streak;
    if k == 0 {
    } else {
      CountsTrailingFailures(timings, ss, es, k - 1);
      var s, e := ss[k - 1], es[k - 1];
      assert ss[k] == Next(timings, s, e);
      StreakNext(s.outcomes, e.Update? && e.report.Succeeded?);
      assert s.outcomes + [] == s.outcomes;
    }
  }

  // How an instance loses the lease: by its own release, or to an instance that found it expired.
  predicate Loses(s: Sys, e: Event, a: string) {
    Holds(s.row, a) && (
      (e.Release? && e.me == a)
      || (e.Acquire? && e.me != a && s.row.value.expires.Some? && s.row.value.expires.value <= e.now))
  }

  lemma {:induction false} HoldEnds(timings: Timings, ss: seq<Sys>, es: seq<Event>, i: nat, k: nat, a: string)
    returns (m: nat)
    requires IsRun(timings, ss, es) && i <= k < |ss| && Holds(ss[i].row, a) && !Holds(ss[k].row, a)
    ensures i <= m < k && Loses(ss[m], es[m], a)
  {
    if Holds(ss[k - 1].row, a) {
      m := k - 1;
      assert ss[k] == Next(timings, ss[k - 1], es[k - 1]);
    } else {
      m := HoldEnds(timings, ss, es, i, k - 1, a);
    }
  }

  // Another instance gets the lease only after the holder released it or let it expire.
  lemma TakeoverNeedsExpiry(timings: Timings, ss: seq<Sys>, es: seq<Event>, i: nat, k: nat, a: string, b: string)
    returns (m: nat)
    requires IsRun(timings, ss, es) && i <= k < |ss| && Holds(ss[i].row, a) && Holds(ss[k].row, b) && a != b
    ensures i <= m < k && Loses(ss[m], es[m], a)
  {
    m := HoldEnds(timings, ss, es, i, k, a);
  }

  lemma {:induction false} StaysLost(timings: Timings, ss: seq<Sys>, es: seq<Event>, i: nat, k: nat, a: string)
    requires IsRun(timings, ss, es) && i <= k < |ss| && !Holds(ss[i].row, a)
    requires forall j :: i <= j < k ==> !(es[j].Acquire? && es[j].me == a)
    ensures !Holds(ss[k].row, a)
    decreases k
  {
    if i == k {
    } else {
      StaysLost(timings, ss, es, i, k - 1, a);
      assert ss[k] == Next(timings, ss[k - 1], es[k - 1]);
    }
  }

  // Fencing: an instance acquires once, so that after a takeover nothing it does changes the row again.
  lemma Fenced(timings: Timings, ss: seq<Sys>, es: seq<Event>, i: nat, k: nat, m: nat, a: string, b: string)
    requires IsRun(timings, ss, es) && i < k <= m < |es| && es[i].Acquire? && es[i].me == a
    requires forall j :: 0 <= j < |es| && j != i ==> !(es[j].Acquire? && es[j].me == a)
    requires Holds(ss[k].row, b) && a != b && es[m].me == a
    ensures ss[m + 1] == ss[m] && !Grants(ss[m], es[m])
  {
    StaysLost(timings, ss, es, k, m, a);
    assert ss[m + 1] == Next(timings, ss[m], es[m]);
  }

  // From a grant on, the lease runs at least its length, unless it is released.
  lemma {:induction false} RunsItsLength(timings: Timings, ss: seq<Sys>, es: seq<Event>, i: nat, k: nat)
    returns (m: nat)
    requires IsRun(timings, ss, es) && ClockAdvances(es) && i < k < |ss| && Grants(ss[i], es[i])
    ensures var a, end := es[i].me, es[i].now + LeaseSeconds(timings(es[i].me));
            (Holds(ss[k].row, a) && ss[k].row.value.expires.Some? && ss[k].row.value.expires.value >= end)
            || (i < m < k && es[m].Release? && es[m].me == a)
            || (i < m < k && es[m].now >= end)
    decreases k
  {
    m := k - 1;
    assert ss[k] == Next(timings, ss[k - 1], es[k - 1]);
    assert es[i].now <= es[k - 1].now;
    if k - 1 == i {
    } else {
      var before := RunsItsLength(timings, ss, es, i, k - 1);
      if before < k - 1 && i < before && (es[before].now >= es[i].now + LeaseSeconds(timings(es[i].me))
                                          || (es[before].Release? && es[before].me == es[i].me)) {
        m := before;
      }
    }
  }

  // With one clock that never goes back, the leases of different instances never overlap.
  lemma LeasesDisjoint(timings: Timings, ss: seq<Sys>, es: seq<Event>, i: nat, k: nat)
    requires IsRun(timings, ss, es) && ClockAdvances(es) && i < k < |es|
    requires Grants(ss[i], es[i]) && Grants(ss[k], es[k]) && es[i].me != es[k].me
    ensures es[i].now + LeaseSeconds(timings(es[i].me)) <= es[k].now
            || exists m :: i < m < k && es[m].Release? && es[m].me == es[i].me
  {
    var m := RunsItsLength(timings, ss, es, i, k);
    if Holds(ss[k].row, es[i].me) {
      assert !HeldByOther(ss[k].row, es[k].me, es[k].now);
    }
  }

  // The event records an outcome.
  predicate Records(s: Sys, e: Event) {
    e.Update? && !e.report.PollStarted? && Holds(s.row, e.me)
  }

  // The row tells of the last grant: its time, and its expiry as long as it was not released.
  lemma {:induction false} RowTellsLastGrant(timings: Timings, ss: seq<Sys>, es: seq<Event>, m: nat, k: nat)
    requires IsRun(timings, ss, es) && m < k < |ss| && Grants(ss[m], es[m])
    requires forall j :: m < j < k ==> !Grants(ss[j], es[j])
    ensures ss[k].row.Some? && ss[k].row.value.heartbeatAt == es[m].now
    ensures Holds(ss[k].row, es[m].me) ==>
              ss[k].row.value.expires == Some(es[m].now + LeaseSeconds(timings(es[m].me)))
    decreases k
  {
    hide LeaseSeconds, IsPossible;
    assert ss[k] == Next(timings, ss[k - 1], es[k - 1]);
    if m == k - 1 {
    } else {
      RowTellsLastGrant(timings, ss, es, m, k - 1);
    }
  }

  predicate RunningIffHeld(row: Option<WorkerRow>) {
    row.Some? ==>
      (row.value.running <==> row.value.instance.Some?) && (row.value.instance.None? ==> row.value.expires.None?)
  }

  // The worker reads as running exactly while an instance holds the lease.
  lemma {:induction false} RunsWhileHeld(timings: Timings, ss: seq<Sys>, es: seq<Event>, k: nat)
    requires IsRun(timings, ss, es) && k < |ss| && RunningIffHeld(ss[0].row)
    ensures RunningIffHeld(ss[k].row)
  {
    hide LeaseSeconds, IsPossible, HeldByOther;
    if k == 0 {
    } else {
      RunsWhileHeld(timings, ss, es, k - 1);
      assert ss[k] == Next(timings, ss[k - 1], es[k - 1]);
    }
  }

  // And of the last outcome: a success clears failure and backoff, a failure leaves its own.
  lemma {:induction false} RowTellsLastOutcome(timings: Timings, ss: seq<Sys>, es: seq<Event>, m: nat, k: nat)
    requires IsRun(timings, ss, es) && m < k < |ss| && Records(ss[m], es[m])
    requires forall j :: m < j < k ==> !Records(ss[j], es[j])
    ensures ss[k].row.Some? && ss[k].recorder == Some(es[m].me)
    ensures var row := ss[k].row.value;
            if es[m].report.Succeeded?
            then row.successAt == Some(es[m].now) && row.failures == 0 && row.failure.None? && row.backoff == 0.0
            else row.failures > 0 && row.failure == Some(es[m].report.classification)
                 && row.backoff == es[m].report.backoff
    decreases k
  {
    hide LeaseSeconds, IsPossible, HeldByOther;
    assert ss[k] == Next(timings, ss[k - 1], es[k - 1]);
    if m == k - 1 {
    } else {
      RowTellsLastOutcome(timings, ss, es, m, k - 1);
    }
  }

  // Without failures there is no backoff; with failures it is a delay of the timing of the instance that recorded it.
  ghost predicate BackoffOk(timings: Timings, s: Sys) {
    s.row.Some? ==>
      if s.row.value.failures == 0 then s.row.value.backoff == 0.0
      else s.recorder.Some? && WithinTiming(timings(s.recorder.value), s.row.value.backoff)
  }

  predicate WithinTiming(t: Timing, backoff: real) {
    t.interval <= backoff <= t.maxBackoff
  }

  // The stored backoff is 0 or within the bounds of the instance that recorded it, in every interleaving.
  lemma {:induction false} StoredBackoffBounded(timings: Timings, ss: seq<Sys>, es: seq<Event>, k: nat)
    requires IsRun(timings, ss, es) && k < |ss| && BackoffOk(timings, ss[0])
    requires forall a :: IsValid(timings(a))
    ensures BackoffOk(timings, ss[k])
  {
    hide Delay, IsValid, LeaseSeconds;
    if k == 0 {
    } else {
      StoredBackoffBounded(timings, ss, es, k - 1);
      var e := es[k - 1];
      assert IsPossible(timings, e) && ss[k] == Next(timings, ss[k - 1], e);
      if e.Update? && e.report.Failed? {
        var failures: nat, jitter :| failures >= 1 && e.report.backoff == Delay(timings(e.me), failures, jitter);
        assert IsValid(timings(e.me));
        DelayBounds(timings(e.me), failures, jitter);
        assert WithinTiming(timings(e.me), e.report.backoff);
      }
    }
  }

  // No other outcome is recorded between an instance's look at the failure count and its record of a failure.
  ghost predicate FreshReads(timings: Timings, ss: seq<Sys>, es: seq<Event>)
    requires |ss| == |es| + 1
  {
    forall k :: 0 <= k < |es| && es[k].Update? && es[k].report.Failed? ==>
      IsDelayAfter(timings(es[k].me), FailuresOf(ss[k].row) + 1, es[k].report.backoff)
  }

  ghost predicate IsDelayAfter(t: Timing, failures: nat, backoff: real)
    requires failures >= 1
  {
    exists jitter: real :: backoff == Delay(t, failures, jitter)
  }

  ghost predicate BackoffExact(timings: Timings, s: Sys) {
    s.row.Some? ==>
      if s.row.value.failures == 0 then s.row.value.backoff == 0.0
      else s.recorder.Some? && IsDelayAfter(timings(s.recorder.value), s.row.value.failures, s.row.value.backoff)
  }

  // With one worker polling at a time the stored backoff is the delay for the stored failure count.
  lemma {:induction false} StoredBackoffExact(timings: Timings, ss: seq<Sys>, es: seq<Event>, k: nat)
    requires IsRun(timings, ss, es) && FreshReads(timings, ss, es) && k < |ss| && BackoffExact(timings, ss[0])
    ensures BackoffExact(timings, ss[k])
  {
    hide Delay, IsDelayAfter, LeaseSeconds;
    if k == 0 {
    } else {
      StoredBackoffExact(timings, ss, es, k - 1);
      assert ss[k] == Next(timings, ss[k - 1], es[k - 1]);
    }
  }
}
