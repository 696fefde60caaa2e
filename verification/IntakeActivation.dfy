// Activation along runs: what intake was when a request came in decides about it for ever (src/flop_bench/mailbox.py).
module IntakeActivation {
  import opened Common
  import opened RoomLog
  import opened Mailbox
  import opened Intake
  import opened IntakeRuns

  // The commit at step c stored row i.
  ghost predicate StoresRow(ss: seq<Sys>, es: seq<Event>, c: nat, i: nat) {
    c < |es| && c + 1 < |ss| && es[c].Commit? && es[c].p < |ss[c].pollers| && ss[c].pollers[es[c].p].Scanning?
    && |ss[c].rows| <= i < |ss[c + 1].rows|
  }

  // Poller p read the activation at step q for the scan that it has under way at c.
  ghost predicate ReadsActivation(ss: seq<Sys>, es: seq<Event>, q: nat, c: nat, p: nat) {
    q < c <= |es| && c < |ss| && es[q] == ReadActivation(p)
    && p < |ss[c].pollers| && ss[c].pollers[p].Scanning? && ss[c].pollers[p].active == ss[q].active
    && forall j :: q < j < c ==> es[j] != ReadActivation(p)
  }

  lemma ScanningStep(s: Sys, e: Event, s': Sys, p: nat)
    requires Step(s, e, s') && p < |s'.pollers| && s'.pollers[p].Scanning?
    ensures p < |s.pollers|
    ensures e == ReadActivation(p) ==> s'.pollers[p].active == s.active
    ensures e != ReadActivation(p) ==> s.pollers[p] == s'.pollers[p]
  {
    hide ClassifyAll, StoreAll, Gapless, Reviewed, Linked;
  }

  lemma {:induction false} ActivationWasRead(ss: seq<Sys>, es: seq<Event>, c: nat, p: nat) returns (q: nat)
    requires IsRun(ss, es) && c < |ss| && p < |ss[c].pollers| && ss[c].pollers[p].Scanning?
    ensures ReadsActivation(ss, es, q, c, p)
  {
    hide IsRun, Step;
    InitIdle(ss, es);
    if c == 0 {
    } else {
      StepAt(ss, es, c);
      ScanningStep(ss[c - 1], es[c - 1], ss[c], p);
      if es[c - 1] == ReadActivation(p) {
        q := c - 1;
      } else {
        q := ActivationWasRead(ss, es, c - 1, p);
      }
    }
  }

  lemma OnlyCommitsAdd(s: Sys, e: Event, s': Sys)
    requires Step(s, e, s') && |s'.rows| > |s.rows|
    ensures e.Commit? && e.p < |s.pollers| && s.pollers[e.p].Scanning?
  {
    hide ClassifyAll, StoreAll, Gapless;
  }

  // Every row was stored by some commit.
  lemma {:induction false} RowWasStored(ss: seq<Sys>, es: seq<Event>, k: nat, i: nat) returns (c: nat)
    requires IsRun(ss, es) && k < |ss| && i < |ss[k].rows|
    ensures c < k && StoresRow(ss, es, c, i)
  {
    hide Step;
    if k == 0 {
    } else {
      hide IsRun;
      StepAt(ss, es, k);
      if i < |ss[k - 1].rows| {
        c := RowWasStored(ss, es, k - 1, i);
      } else {
        OnlyCommitsAdd(ss[k - 1], es[k - 1], ss[k]);
        c := k - 1;
      }
    }
  }

  lemma InactiveMeansRejected(parse: Parser, raw: Raw, row: Row)
    requires Classify(parse, raw).Some? && Keeps(row, ClassifyFor(parse, false, raw))
    ensures row.item.review == Rejected
  {
    hide Classify, ClassifyFor;
    ClassifyForCases(parse, false, raw);
  }

  // A row that a poll stored after reading inactive intake is rejected for ever: no later activation and no decision
  // makes it pending or approved.
  lemma InactiveStaysRejected(ss: seq<Sys>, es: seq<Event>, c: nat, i: nat, k: nat)
    requires IsRun(ss, es) && StoresRow(ss, es, c, i) && !ss[c].pollers[es[c].p].active && c < k < |ss|
    ensures i < |ss[k].rows| && ss[k].rows[i].item.review == Rejected
  {
    hide Step, RowsOk, Classify, ClassifyFor, Keeps, IsRun;
    StepAt(ss, es, c + 1);
    Coverage(ss, es, c);
    var e, since := es[c], ss[c].pollers[es[c].p].since;
    CommitStores(ss[c], e, ss[c + 1], since, false);
    assert StoredFrom(ss[c + 1].rows[i], i, since, false, e.parse, e.raws);
    InactiveMeansRejected(e.parse, e.raws[i - since], ss[c + 1].rows[i]);
    DecisionsAreFinal(ss, es, c + 1, k);
    assert Settles(ss[c + 1].rows[i], ss[k].rows[i]);
  }

  // Behind every request that is pending or approved stands a poll that stored it after reading active intake.
  lemma ReviewedWasActive(ss: seq<Sys>, es: seq<Event>, k: nat, i: nat) returns (q: nat, c: nat)
    requires IsRun(ss, es) && k < |ss| && i < |ss[k].rows| && ss[k].rows[i].item.review != Rejected
    ensures q < c < k && StoresRow(ss, es, c, i) && ReadsActivation(ss, es, q, c, es[c].p) && ss[q].active
  {
    hide IsRun, Step;
    c := RowWasStored(ss, es, k, i);
    q := ActivationWasRead(ss, es, c, es[c].p);
    if !ss[q].active {
      InactiveStaysRejected(ss, es, c, i, k);
    }
  }
}
