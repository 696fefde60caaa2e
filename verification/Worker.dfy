// The lease of the mailbox worker and the polling loop under it (src/flop_bench/state.py, worker.py).
module Worker {
  import opened Common
  import opened Backoff

  // The row of mailbox_intake_worker. `expires` is None when lease_expires_at is NULL or unreadable.
  datatype WorkerRow = WorkerRow(
    running: bool, instance: Option<string>, startedAt: real, heartbeatAt: real, pollStartedAt: Option<real>,
    successAt: Option<real>, failures: nat, backoff: real, failure: Option<string>, expires: Option<real>,
    interval: real)

  datatype Report = PollStarted | Succeeded | Failed(backoff: real, classification: string)

  // A holder other than me keeps the lease until it has expired; an unreadable expiry never does.
  predicate HeldByOther(row: Option<WorkerRow>, me: string, now: real) {
    row.Some? && row.value.instance.Some? && row.value.instance.value != me
    && (row.value.expires.None? || row.value.expires.value > now)
  }

  predicate Holds(row: Option<WorkerRow>, me: string) {
    row.Some? && row.value.instance == Some(me)
  }

  // The upsert of acquire_mailbox_worker_lease: what it does not name survives.
  function Acquired(row: Option<WorkerRow>, me: string, now: real, lease: real, interval: real): WorkerRow {
    match row
    case None => WorkerRow(true, Some(me), now, now, None, None, 0, 0.0, None, Some(now + lease), interval)
    case Some(r) =>
      r.(running := true, instance := Some(me), startedAt := now, heartbeatAt := now, expires := Some(now + lease),
         interval := interval)
  }

  // The UPDATE of update_mailbox_worker.
  function Updated(r: WorkerRow, now: real, lease: real, report: Report): WorkerRow {
    var beat := r.(heartbeatAt := now, expires := Some(now + lease));
    match report
    case PollStarted => beat.(pollStartedAt := Some(now))
    case Succeeded => beat.(successAt := Some(now), failures := 0, backoff := 0.0, failure := None)
    case Failed(backoff, classification) =>
      beat.(failures := r.failures + 1, backoff := backoff, failure := Some(classification))
  }

  function Released(row: Option<WorkerRow>, me: string): Option<WorkerRow> {
    if Holds(row, me) then Some(row.value.(running := false, instance := None, expires := None)) else row
  }

  // The length of the trailing run of failures; true stands for a successful poll.
  function Streak(outcomes: seq<bool>): nat {
    if outcomes == [] || outcomes[|outcomes| - 1] then 0 else 1 + Streak(outcomes[..|outcomes| - 1])
  }

  lemma StreakNext(outcomes: seq<bool>, outcome: bool)
    ensures Streak(outcomes + [outcome]) == if outcome then 0 else Streak(outcomes) + 1
  {
    assert (outcomes + [outcome])[..|outcomes|] == outcomes;
  }

  lemma {:induction false} StreakIsTrailing(outcomes: seq<bool>)
    ensures var n := Streak(outcomes);
            n <= |outcomes| && (forall i :: |outcomes| - n <= i < |outcomes| ==> !outcomes[i])
            && (n < |outcomes| ==> outcomes[|outcomes| - n - 1])
  {
    if outcomes == [] {
    } else {
      StreakIsTrailing(outcomes[..|outcomes| - 1]);
    }
  }

  // What one turn of the loop meets: the operator, the clock, the poll, and another instance that tries to take
  // the lease while this one sleeps or polls.
  datatype Turn = Turn(
    stop: bool, active: bool, asleep: Option<Rival>, started: real, during: Option<Rival>, complete: bool,
    classification: string, jitter: real, finished: real)
  {
    // The loop takes this turn.
    predicate GoesOn(once: bool) {
      !stop && (once || active)
    }

    predicate Undisturbed() {
      asleep.None? && during.None?
    }

    predicate LeavesAlone(me: string) {
      (asleep.Some? ==> asleep.value.instance != me) && (during.Some? ==> during.value.instance != me)
    }
  }

  datatype Rival = Rival(instance: string, now: real, timing: Timing)

  datatype Exit = BadTiming | NotActivated | LeaseHeld | LeaseLost | Finished

  function TurnDelay(t: Timing, failures: nat, turn: Turn): real {
    if turn.complete then t.interval else Delay(t, failures + 1, turn.jitter)
  }

  function Completes(turns: seq<Turn>): (outcomes: seq<bool>)
    ensures |outcomes| == |turns|
  {
    if turns == [] then [] else Completes(turns[..|turns| - 1]) + [turns[|turns| - 1].complete]
  }

  // The loop takes the first n turns, if nobody takes the lease.
  predicate Takes(once: bool, turns: seq<Turn>, n: nat) {
    n <= |turns| && (once ==> n <= 1) && forall i :: 0 <= i < n ==> turns[i].GoesOn(once)
  }

  // It then takes no further one: the turns are over, or the operator stops it, or polling is deactivated, or the
  // single poll is done.
  predicate EndsAt(once: bool, turns: seq<Turn>, n: nat) {
    Takes(once, turns, n) && (n == |turns| || !turns[n].GoesOn(once) || (once && n == 1))
  }

  // The row after another instance's attempt to take the lease.
  function AfterAttempt(row: Option<WorkerRow>, rival: Option<Rival>): Option<WorkerRow> {
    match rival
    case None => row
    case Some(r) =>
      if HeldByOther(row, r.instance, r.now) then row
      else Some(Acquired(row, r.instance, r.now, LeaseSeconds(r.timing), r.timing.interval))
  }

  function ReportOf(delay: real, turn: Turn): Report {
    if turn.complete then Succeeded else Failed(delay, turn.classification)
  }

  // The delays of a run that starts after the given number of failures.
  function Paces(t: Timing, failures: nat, turns: seq<Turn>): (delays: seq<real>)
    ensures |delays| == |turns|
  {
    if turns == [] then []
    else
      var n := |turns| - 1;
      Paces(t, failures, turns[..n]) + [TurnDelay(t, FailuresAfter(failures, turns[..n]), turns[n])]
  }

  function FailuresAfter(failures: nat, turns: seq<Turn>): nat {
    if turns == [] then failures
    else if turns[|turns| - 1].complete then 0
    else FailuresAfter(failures, turns[..|turns| - 1]) + 1
  }

  // The failure count of a run is the trailing failure run over all outcomes, earlier instances' included.
  lemma {:induction false} FailuresAreStreak(outcomes: seq<bool>, turns: seq<Turn>)
    ensures FailuresAfter(Streak(outcomes), turns) == Streak(outcomes + Completes(turns))
  {
    if turns == [] {
      assert outcomes + Completes(turns) == outcomes;
    } else {
      var n := |turns| - 1;
      FailuresAreStreak(outcomes, turns[..n]);
      StreakNext(outcomes + Completes(turns[..n]), turns[n].complete);
      assert outcomes + Completes(turns) == (outcomes + Completes(turns[..n])) + [turns[n].complete];
    }
  }

  lemma NoTurn(t: Timing, failures: nat, turns: seq<Turn>)
    ensures Paces(t, failures, turns[..0]) == [] && FailuresAfter(failures, turns[..0]) == failures
    ensures Completes(turns[..0]) == []
  {
  }

  lemma NextTurn(t: Timing, failures: nat, turns: seq<Turn>, n: nat)
    requires n < |turns|
    ensures Paces(t, failures, turns[..n + 1])
            == Paces(t, failures, turns[..n]) + [TurnDelay(t, FailuresAfter(failures, turns[..n]), turns[n])]
    ensures FailuresAfter(failures, turns[..n + 1])
            == if turns[n].complete then 0 else FailuresAfter(failures, turns[..n]) + 1
    ensures Completes(turns[..n + 1]) == Completes(turns[..n]) + [turns[n].complete]
  {
    hide TurnDelay;
    assert turns[..n + 1][..n] == turns[..n];
  }

  lemma {:induction false} PacesBounded(t: Timing, failures: nat, turns: seq<Turn>)
    requires IsValid(t)
    ensures forall i :: 0 <= i < |turns| ==> t.interval <= Paces(t, failures, turns)[i] <= t.maxBackoff
  {
    if turns == [] {
    } else {
      var n := |turns| - 1;
      PacesBounded(t, failures, turns[..n]);
      DelayBounds(t, FailuresAfter(failures, turns[..n]) + 1, turns[n].jitter);
    }
  }

  // A delay is the interval after a complete poll, and after a failure the backoff for the failures in a row that then
  // stand behind it, those of earlier instances included.
  lemma {:induction false} PacesFollowStreak(t: Timing, outcomes: seq<bool>, turns: seq<Turn>, i: nat)
    requires i < |turns|
    ensures var history := outcomes + Completes(turns[..i + 1]);
            Paces(t, Streak(outcomes), turns)[i] ==
              if turns[i].complete then t.interval
              else if Streak(history) >= 1 then Delay(t, Streak(history), turns[i].jitter) else 0.0
    ensures !turns[i].complete ==> Streak(outcomes + Completes(turns[..i + 1])) >= 1
    decreases |turns|
  {
    var n := |turns| - 1;
    hide Delay, Streak;
    if i < n {
      PacesFollowStreak(t, outcomes, turns[..n], i);
      assert turns[..n][..i + 1] == turns[..i + 1];
    } else {
      assert turns[..i + 1] == turns;
      FailuresAreStreak(outcomes, turns[..n]);
      StreakNext(outcomes + Completes(turns[..n]), turns[n].complete);
      assert outcomes + Completes(turns) == (outcomes + Completes(turns[..n])) + [turns[n].complete];
    }
  }

  function FailuresOf(row: Option<WorkerRow>): nat {
    if row.Some? then row.value.failures else 0
  }

  class WorkerDb {
    var row: Option<WorkerRow>
    // The outcomes recorded so far, by any instance.
    ghost var outcomes: seq<bool>

    ghost predicate Valid()
      reads this
    {
      FailuresOf(row) == Streak(outcomes)
    }

    constructor ()
      ensures Valid() && row == None && outcomes == []
    {
      row := None;
      outcomes := [];
    }

    method AcquireLease(me: string, now: real, lease: real, interval: real) returns (ok: bool)
      requires Valid()
      modifies this
      ensures Valid() && outcomes == old(outcomes)
      ensures ok <==> !HeldByOther(old(row), me, now)
      // A lease that another instance holds is free from its expiry on, and never where that cannot be read.
      ensures old(row).Some? && old(row).value.instance.Some? && old(row).value.instance != Some(me) ==>
                (ok <==> old(row).value.expires.Some? && now >= old(row).value.expires.value)
      ensures row == if ok then Some(Acquired(old(row), me, now, lease, interval)) else old(row)
    {
      ok := !HeldByOther(row, me, now);
      if ok {
        row := Some(Acquired(row, me, now, lease, interval));
      }
    }

    method UpdateWorker(me: string, now: real, lease: real, report: Report) returns (ok: bool)
      requires Valid()
      modifies this
      ensures Valid()
      ensures ok <==> Holds(old(row), me)
      ensures row == if ok then Some(Updated(old(row).value, now, lease, report)) else old(row)
      ensures outcomes == old(outcomes) + if ok && !report.PollStarted? then [report.Succeeded?] else []
    {
      ok := row.Some? && row.value.instance == Some(me);
      if ok {
        row := Some(Updated(row.value, now, lease, report));
        if !report.PollStarted? {
          StreakNext(outcomes, report.Succeeded?);
          outcomes := outcomes + [report.Succeeded?];
        }
      }
    }

    method ReleaseLease(me: string)
      requires Valid()
      modifies this
      ensures Valid() && outcomes == old(outcomes)
      ensures row == Released(old(row), me)
    {
      if Holds(row, me) {
        row := Some(row.value.(running := false, instance := None, expires := None));
      }
    }

    // Another instance makes its attempt, if there is one.
    method Attempt(rival: Option<Rival>)
      requires Valid()
      modifies this
      ensures Valid() && outcomes == old(outcomes)
      ensures row == AfterAttempt(old(row), rival) && FailuresOf(row) == FailuresOf(old(row))
    {
      if rival.Some? {
        var r := rival.value;
        var ok := AcquireLease(r.instance, r.now, LeaseSeconds(r.timing), r.timing.interval);
      }
    }

    // One turn of the loop; false when the lease turns out to be lost.
    method PollOnce(me: string, t: Timing, turn: Turn) returns (ok: bool, delay: real)
      requires Valid() && row.Some? && row.value.instance.Some? && IsValid(t) && turn.LeavesAlone(me)
      modifies this
      ensures Valid() && row.Some? && row.value.instance.Some?
      // The lease is lost exactly when a rival took it while this instance slept; the row after the turn in full.
      ensures var slept := AfterAttempt(old(row), turn.asleep);
              (ok <==> Holds(slept, me))
              && (!ok ==> row == slept)
              && (ok ==>
                    var begun := Some(Updated(slept.value, turn.started, LeaseSeconds(t), PollStarted));
                    var polled := AfterAttempt(begun, turn.during);
                    row == if Holds(polled, me)
                           then Some(Updated(polled.value, turn.finished, LeaseSeconds(t), ReportOf(delay, turn)))
                           else polled)
      ensures Holds(row, me) ==> Holds(old(row), me)
      ensures ok ==> Holds(old(row), me)
                     && delay == TurnDelay(t, FailuresOf(old(row)), turn)
      ensures ok && Holds(row, me) ==> FailuresOf(row) == if turn.complete then 0 else FailuresOf(old(row)) + 1
      // What the outcome leaves in the row.
      ensures ok && Holds(row, me) && turn.complete ==>
                row.value.backoff == 0.0 && row.value.failure.None? && row.value.successAt == Some(turn.finished)
      ensures ok && Holds(row, me) && !turn.complete ==>
                row.value.backoff == delay && row.value.failure == Some(turn.classification)
      ensures !ok ==> !Holds(row, me) && outcomes == old(outcomes)
      ensures Holds(old(row), me) && turn.asleep.None? && turn.during.None? ==>
                ok && Holds(row, me) && outcomes == old(outcomes) + [turn.complete]
    {
      hide Delay, Streak, LeaseSeconds;
      delay := t.interval;
      Attempt(turn.asleep);
      ok := UpdateWorker(me, turn.started, LeaseSeconds(t), PollStarted);
      if ok {
        Attempt(turn.during);
        delay := TurnDelay(t, FailuresOf(row), turn);
        var held := UpdateWorker(me, turn.finished, LeaseSeconds(t), ReportOf(delay, turn));
      }
    }

    // The loop of run_worker, for as many turns as given.
    method PollUnderLease(me: string, t: Timing, once: bool, turns: seq<Turn>)
      returns (exit: Exit, delays: seq<real>)
      requires Valid() && Holds(row, me) && IsValid(t)
      requires forall i :: 0 <= i < |turns| ==> turns[i].LeavesAlone(me)
      modifies this
      ensures Valid() && row.Some? && row.value.instance.Some?
      ensures exit.Finished? || (exit.LeaseLost? && !Holds(row, me))
      ensures exit.Finished? ==> EndsAt(once, turns, |delays|)
      ensures exit.LeaseLost? ==>
                Takes(once, turns, |delays| + 1) && exists i :: 0 <= i <= |delays| && !turns[i].Undisturbed()
      ensures |delays| <= |turns| && delays == Paces(t, FailuresOf(old(row)), turns[..|delays|])
      ensures (forall i :: 0 <= i < |turns| ==> turns[i].Undisturbed()) ==>
                exit.Finished? && outcomes == old(outcomes) + Completes(turns[..|delays|])
    {
      exit, delays := Finished, [];
      hide Delay, Streak, LeaseSeconds, TurnDelay, Paces, Completes, FailuresAfter;
      ghost var calm := forall i :: 0 <= i < |turns| ==> turns[i].Undisturbed();
      ghost var f := FailuresOf(old(row));
      NoTurn(t, f, turns);
      var n := 0;
      while n < |turns| && !turns[n].stop && !(n > 0 && once) && (once || turns[n].active)
        invariant Takes(once, turns, n) && Valid() && row.Some? && row.value.instance.Some?
        invariant Holds(row, me) || exists i :: 0 <= i < n && !turns[i].Undisturbed()
        invariant exit.Finished? && delays == Paces(t, f, turns[..n])
        invariant Holds(row, me) ==> FailuresOf(row) == FailuresAfter(f, turns[..n])
        invariant calm ==> Holds(row, me) && outcomes == old(outcomes) + Completes(turns[..n])
      {
        ghost var before := Holds(row, me);
        var held, delay := PollOnce(me, t, turns[n]);
        assert before && !Holds(row, me) ==> !turns[n].Undisturbed();
        if !held {
          exit := LeaseLost;
          break;
        }
        delays := delays + [delay];
        NextTurn(t, f, turns, n);
        n := n + 1;
      }
    }

    // run_worker; `me` is a fresh uuid.
    method RunWorker(me: string, t: Timing, once: bool, activated: bool, now: real, turns: seq<Turn>)
      returns (exit: Exit, delays: seq<real>)
      requires Valid() && !Holds(row, me)
      requires forall i :: 0 <= i < |turns| ==> turns[i].LeavesAlone(me)
      modifies this
      // Whatever happens, the instance leaves without its lease.
      ensures Valid() && !Holds(row, me)
      ensures exit.BadTiming? <==> !IsValid(t)
      ensures exit.BadTiming? <==>
                t.interval <= 0.0 || t.interval > 3600.0 || t.maxBackoff > 3600.0 || t.maxBackoff < t.interval
      ensures exit.NotActivated? <==> IsValid(t) && !once && !activated
      ensures exit.LeaseHeld? <==> IsValid(t) && (once || activated) && HeldByOther(old(row), me, now)
      ensures exit.BadTiming? || exit.NotActivated? || exit.LeaseHeld? ==> row == old(row) && delays == []
      // The turns it takes: all up to its end, or up to the one at which it finds that a rival took the lease.
      ensures exit.Finished? ==> EndsAt(once, turns, |delays|)
      ensures exit.LeaseLost? ==>
                Takes(once, turns, |delays| + 1) && exists i :: 0 <= i <= |delays| && !turns[i].Undisturbed()
      // The pace depends on nothing but the outcomes and the failures stored by earlier instances.
      ensures |delays| <= |turns| && delays == Paces(t, FailuresOf(old(row)), turns[..|delays|])
      ensures forall i :: 0 <= i < |delays| ==> t.interval <= delays[i] <= t.maxBackoff
      // A lost lease stays with the rival.
      ensures exit.LeaseLost? ==> row.Some? && row.value.instance.Some?
      // Without rivals the lease is not lost, and every outcome is recorded.
      ensures (forall i :: 0 <= i < |turns| ==> turns[i].Undisturbed()) ==>
                !exit.LeaseLost? && outcomes == old(outcomes) + Completes(turns[..|delays|])
    {
      hide Delay, Streak, TurnDelay;
      delays := [];
      if !IsValid(t) {
        return BadTiming, delays;
      }
      if !once && !activated {
        return NotActivated, delays;
      }
      var ok := AcquireLease(me, now, LeaseSeconds(t), t.interval);
      if !ok {
        return LeaseHeld, delays;
      }
      exit, delays := PollUnderLease(me, t, once, turns);
      PacesBounded(t, FailuresOf(old(row)), turns[..|delays|]);
      ReleaseLease(me);
    }
  }
}
