// When a run takes a confirmation back: the exact condition under which a confirmed audit row weakens
// (src/flop_bench/posting.py, execution.py).
module Downgrades {
  import opened Common
  import opened RoomLog
  import opened HistoryScan
  import opened Reconcile
  import opened Delivery
  import opened SerialDelivery

  predicate StrongRow(w: World, i: nat) {
    i < |w.attempts| && IsStrong(w.attempts[i].row.audit.status)
  }

  // Neither posted nor settled by an earlier reconciliation.
  predicate Unsettled(s: Status) {
    !IsStrong(s) && s != ReconciledAbsent
  }

  // A complete search without a match that carries a nonce.
  predicate FindsAbsence(r: Report) {
    r.tally.attemptSeq.None? && r.tally.other.None? && r.complete
  }

  // The step is the write of a reconciliation of row i.
  predicate Concludes(w: World, e: Event, i: nat) {
    e.Reconcile? && e.r < |w.recs| && w.recs[e.r].attempt == i
  }

  // Step m confirms row i: a reconciliation found its message, and the row was weak until then.
  ghost predicate Confirms(ws: seq<World>, es: seq<Event>, i: nat, m: nat)
    requires |ws| == |es| + 1
  {
    m < |es| && Concludes(ws[m], es[m], i) && es[m].report.tally.attemptSeq.Some?
    && !StrongRow(ws[m], i) && StrongRow(ws[m + 1], i)
  }

  // A stale absence: the reconciliation that ends at k read row i at j, when it was unsettled, and finds no message;
  // meanwhile, at m, another one confirmed the row.
  ghost predicate StaleAbsence(ws: seq<World>, es: seq<Event>, i: nat, j: nat, m: nat, k: nat)
    requires |ws| == |es| + 1
  {
    j < m < k < |es|
    && es[j] == BeginReconcile(i) && i < |ws[j].attempts| && Unsettled(ws[j].attempts[i].row.audit.status)
    && Confirms(ws, es, i, m)
    && es[k].Reconcile? && es[k].r == |ws[j].recs| && FindsAbsence(es[k].report)
  }

  // ---- What else every step keeps ----

  predicate AttemptTidy(a: Attempt) {
    (IsStrong(a.row.audit.status) ==> a.phase.Done? && a.row.audit.failure.None?)
    && (a.row.audit.status == AlreadyPosted ==> a.phase == Done(None))
    && (a.row.audit.status == ReconciledAbsent ==> a.row.audit.failure == Some(ABSENT))
  }

  // A reconciliation of a row that reads posted has read it as posted.
  predicate RecTidy(w: World, r: Reconciliation) {
    r.attempt < |w.attempts|
    && (w.attempts[r.attempt].row.audit.status == Posted ==> r.snapshot.audit.status == Posted)
    && (r.snapshot.audit.status == ReconciledAbsent ==> r.snapshot.audit.failure == Some(ABSENT))
  }

  ghost predicate Tidy(w: World) {
    (forall i :: 0 <= i < |w.attempts| ==> AttemptTidy(w.attempts[i]))
    && forall r | r in w.recs :: RecTidy(w, r)
  }

  // What a reconciliation does to its attempt.
  lemma WriteOf(a: Attempt, snapshot: Row, report: Report)
    requires AttemptTidy(a) && (snapshot.audit.status == ReconciledAbsent ==> snapshot.audit.failure == Some(ABSENT))
    requires a.phase.Done? && snapshot.nonce.Some? && snapshot.nonce == a.row.nonce && a.row.nonce == a.phase.used
    ensures var a' := Reconciled(a, snapshot, report);
            AttemptTidy(a') && a'.phase == a.phase
            && (a' == a || a'.row.audit.status == ReconciledPosted || a'.row.audit.status == ReconciledAbsent)
            && (report.tally.attemptSeq.Some? ==> a' == a || a'.row.audit.status == ReconciledPosted)
            && (FindsAbsence(report) && Unsettled(snapshot.audit.status) ==> a'.row.audit.status == ReconciledAbsent)
            && (a' != a && a'.row.audit.status == ReconciledAbsent ==>
                  FindsAbsence(report) && Unsettled(snapshot.audit.status))
            && (a' != a && a'.row.audit.status == ReconciledPosted ==>
                  report.tally.attemptSeq.Some? && a'.row.audit.number.Some?)
  {
  }

  // The attempt that step e may change; the others stay as they are.
  lemma OnlyOneChanges(b: Bench, base: nat, w: World, e: Event, w': World, i: nat)
    requires Inv(b, base, w) && Next(b, w, e, w') && i < |w.attempts|
    ensures i < |w'.attempts|
    ensures w'.attempts[i] != w.attempts[i] ==> (Sends(e) && e.i == i) || Concludes(w, e, i)
    ensures Concludes(w, e, i) ==> w'.attempts[i] == Reconciled(w.attempts[i], w.recs[e.r].snapshot, e.report)
  {
    hide Describes, Genuine, Reconciled, AttemptOk, Init;
    if Sends(e) {
      SenderShape(b, w, e, w');
    }
  }

  // An attempt under reconciliation has ended with its nonce.
  lemma UnderReconciliation(b: Bench, base: nat, w: World, r: Reconciliation)
    requires Inv(b, base, w) && r in w.recs
    ensures r.attempt < |w.attempts|
    ensures var a := w.attempts[r.attempt];
            a.phase.Done? && a.phase.used == a.row.nonce == r.snapshot.nonce && r.snapshot.nonce.Some?
  {
    hide Genuine;
    assert RecOk(w, r);
    assert AttemptOk(b, w.attempts[r.attempt]);
  }

  // A sender ends its attempt at most once, and never touches one that has ended.
  lemma SenderTidy(b: Bench, w: World, e: Event, w': World)
    requires Sends(e) && Next(b, w, e, w') && AttemptTidy(w.attempts[e.i])
    ensures !w.attempts[e.i].phase.Done? && AttemptTidy(w'.attempts[e.i])
  {
    hide Describes, Genuine;
  }

  lemma NextTidyAttempt(b: Bench, base: nat, w: World, e: Event, w': World, i: nat)
    requires Inv(b, base, w) && Tidy(w) && Next(b, w, e, w') && i < |w.attempts|
    ensures i < |w'.attempts| && AttemptTidy(w'.attempts[i])
    ensures w.attempts[i].phase.Done? ==> w'.attempts[i].phase == w.attempts[i].phase
    ensures w.attempts[i].phase.Done? && w'.attempts[i].row.audit.status == Posted ==>
              w.attempts[i].row.audit.status == Posted
  {
    OnlyOneChanges(b, base, w, e, w', i);
    if Sends(e) && e.i == i {
      SenderTidy(b, w, e, w');
    } else if Concludes(w, e, i) {
      var rec := w.recs[e.r];
      UnderReconciliation(b, base, w, rec);
      assert RecTidy(w, rec);
      WriteOf(w.attempts[i], rec.snapshot, e.report);
    }
  }

  lemma NextTidyRec(b: Bench, base: nat, w: World, e: Event, w': World, r: Reconciliation)
    requires Inv(b, base, w) && Tidy(w) && r in w.recs && r.attempt < |w'.attempts|
    requires w'.attempts[r.attempt].row.audit.status == Posted ==> w.attempts[r.attempt].row.audit.status == Posted
    ensures RecTidy(w', r)
  {
    assert RecTidy(w, r);
  }

  // Where a reconciliation of the next world comes from.
  lemma NextRec(b: Bench, base: nat, w: World, e: Event, w': World, r: nat)
    requires Inv(b, base, w) && Next(b, w, e, w')
    ensures |w.recs| <= |w'.recs|
    ensures r < |w.recs| ==>
              w'.recs[r].attempt == w.recs[r].attempt && w'.recs[r].snapshot == w.recs[r].snapshot
              && (w'.recs[r].live ==> w.recs[r].live) && (e.Reconcile? && e.r == r ==> !w'.recs[r].live)
    ensures |w.recs| <= r < |w'.recs| ==>
              r == |w.recs| && e == BeginReconcile(w'.recs[r].attempt) && w'.recs[r].attempt < |w.attempts|
              && w'.recs[r].snapshot == w.attempts[w'.recs[r].attempt].row && w'.attempts == w.attempts
  {
    hide Describes, Genuine, Reconciled, Inv;
    if Sends(e) {
      SendersLeaveRecs(b, w, e, w');
    }
  }

  lemma SendersLeaveRecs(b: Bench, w: World, e: Event, w': World)
    requires Sends(e) && Next(b, w, e, w')
    ensures w'.recs == w.recs
  {
    hide Describes, Genuine;
  }

  lemma NextTidy(b: Bench, base: nat, w: World, e: Event, w': World)
    requires Inv(b, base, w) && Tidy(w) && Next(b, w, e, w') && Grows(w, w')
    ensures Tidy(w')
  {
    hide AttemptTidy, RecTidy, Inv;
    forall i | 0 <= i < |w'.attempts|
      ensures AttemptTidy(w'.attempts[i])
    {
      if i < |w.attempts| {
        NextTidyAttempt(b, base, w, e, w', i);
      } else {
        BeginTidy(b, w, e, w', i);
      }
    }
    forall r: nat | r < |w'.recs|
      ensures RecTidy(w', w'.recs[r])
    {
      NextRec(b, base, w, e, w', r);
      if r < |w.recs| {
        UnderReconciliation(b, base, w, w.recs[r]);
        NextTidyAttempt(b, base, w, e, w', w.recs[r].attempt);
        NextTidyRec(b, base, w, e, w', w.recs[r]);
        SameTidy(w', w.recs[r], w'.recs[r]);
      } else {
        FreshTidy(w', w'.recs[r]);
      }
    }
  }

  lemma BeginTidy(b: Bench, w: World, e: Event, w': World, i: nat)
    requires Next(b, w, e, w') && |w.attempts| <= i < |w'.attempts|
    ensures AttemptTidy(w'.attempts[i])
  {
    hide Describes, Genuine;
  }

  lemma SameTidy(w: World, r: Reconciliation, r': Reconciliation)
    requires RecTidy(w, r) && r'.attempt == r.attempt && r'.snapshot == r.snapshot
    ensures RecTidy(w, r')
  {
  }

  lemma FreshTidy(w: World, r: Reconciliation)
    requires r.attempt < |w.attempts| && r.snapshot == w.attempts[r.attempt].row
    requires AttemptTidy(w.attempts[r.attempt])
    ensures RecTidy(w, r)
  {
  }

  lemma {:induction false} RunTidy(b: Bench, base: nat, ws: seq<World>, es: seq<Event>, k: nat)
    requires IsRun(b, base, ws, es) && k < |ws|
    ensures Inv(b, base, ws[k]) && Tidy(ws[k])
  {
    hide Inv, Next, Grows;
    RunInv(b, base, ws, es, k);
    if k == 0 {
    } else {
      RunTidy(b, base, ws, es, k - 1);
      StepAt(b, base, ws, es, k);
      NextTidy(b, base, ws[k - 1], es[k - 1], ws[k]);
    }
  }

  // One step weakens a row only by an absence that was read off the unsettled row.
  lemma WeakensOnly(b: Bench, base: nat, w: World, e: Event, w': World, i: nat)
    requires Inv(b, base, w) && Tidy(w) && Next(b, w, e, w') && StrongRow(w, i) && !StrongRow(w', i)
    ensures Concludes(w, e, i) && FindsAbsence(e.report) && Unsettled(w.recs[e.r].snapshot.audit.status)
    ensures w.recs[e.r].live && w.attempts[i].row.audit.status == ReconciledPosted
  {
    OnlyOneChanges(b, base, w, e, w', i);
    assert AttemptTidy(w.attempts[i]);
    if Sends(e) && e.i == i {
      SenderTidy(b, w, e, w');
    } else {
      var rec := w.recs[e.r];
      UnderReconciliation(b, base, w, rec);
      assert RecTidy(w, rec);
      WriteOf(w.attempts[i], rec.snapshot, e.report);
    }
  }

  // An absence read off the unsettled row always weakens it.
  lemma AbsenceWeakens(b: Bench, base: nat, w: World, e: Event, w': World, i: nat)
    requires Inv(b, base, w) && Tidy(w) && Next(b, w, e, w') && Concludes(w, e, i)
    requires FindsAbsence(e.report) && Unsettled(w.recs[e.r].snapshot.audit.status)
    ensures i < |w'.attempts| && w'.attempts[i].row.audit.status == ReconciledAbsent
  {
    var rec := w.recs[e.r];
    UnderReconciliation(b, base, w, rec);
    OnlyOneChanges(b, base, w, e, w', i);
    assert RecTidy(w, rec) && AttemptTidy(w.attempts[i]);
    WriteOf(w.attempts[i], rec.snapshot, e.report);
  }

  // A weak row that has its nonce gets strong only by an exact match.
  lemma StrengthensOnly(b: Bench, base: nat, w: World, e: Event, w': World, i: nat)
    requires Inv(b, base, w) && Tidy(w) && Next(b, w, e, w') && i < |w.attempts| && w.attempts[i].phase.Done?
    requires !StrongRow(w, i) && StrongRow(w', i)
    ensures Concludes(w, e, i) && e.report.tally.attemptSeq.Some?
  {
    OnlyOneChanges(b, base, w, e, w', i);
    assert AttemptTidy(w.attempts[i]);
    if Sends(e) && e.i == i {
      SenderTidy(b, w, e, w');
    } else {
      var rec := w.recs[e.r];
      UnderReconciliation(b, base, w, rec);
      assert RecTidy(w, rec);
      WriteOf(w.attempts[i], rec.snapshot, e.report);
    }
  }

  // ---- Along a run ----

  // A reconciliation keeps its row and its snapshot, and once written it stays so.
  lemma {:induction false} RecKept(b: Bench, base: nat, ws: seq<World>, es: seq<Event>, j: nat, k: nat, r: nat)
    requires IsRun(b, base, ws, es) && j <= k < |ws| && r < |ws[j].recs|
    ensures r < |ws[k].recs|
    ensures ws[k].recs[r].attempt == ws[j].recs[r].attempt && ws[k].recs[r].snapshot == ws[j].recs[r].snapshot
    ensures ws[k].recs[r].live ==> ws[j].recs[r].live
    decreases k
  {
    hide Inv, Next, Grows, IsRun;
    if j == k {
    } else {
      RecKept(b, base, ws, es, j, k - 1, r);
      StepAt(b, base, ws, es, k);
      NextRec(b, base, ws[k - 1], es[k - 1], ws[k], r);
    }
  }

  // The step at which a reconciliation read its row.
  lemma {:induction false} RecBegan(b: Bench, base: nat, ws: seq<World>, es: seq<Event>, k: nat, r: nat)
    returns (j: nat)
    requires IsRun(b, base, ws, es) && k < |ws| && r < |ws[k].recs|
    ensures j < k <= |es| && |ws[j].recs| == r && es[j] == BeginReconcile(ws[k].recs[r].attempt)
    ensures ws[k].recs[r].attempt < |ws[j].attempts|
            && ws[k].recs[r].snapshot == ws[j].attempts[ws[k].recs[r].attempt].row
            && ws[j + 1].attempts == ws[j].attempts && ws[j].attempts[ws[k].recs[r].attempt].phase.Done?
  {
    hide Inv, Next, Grows;
    if k == 0 {
    } else {
      hide IsRun;
      StepAt(b, base, ws, es, k);
      NextRec(b, base, ws[k - 1], es[k - 1], ws[k], r);
      if r < |ws[k - 1].recs| {
        j := RecBegan(b, base, ws, es, k - 1, r);
      } else {
        j := k - 1;
        RunInv(b, base, ws, es, k);
        UnderReconciliation(b, base, ws[k], ws[k].recs[r]);
      }
    }
  }

  // A weak row that is strong later was confirmed in between.
  lemma {:induction false} ConfirmedBetween(b: Bench, base: nat, ws: seq<World>, es: seq<Event>, i: nat, j: nat, k: nat)
    returns (m: nat)
    requires IsRun(b, base, ws, es) && j <= k < |ws| && i < |ws[j].attempts| && ws[j].attempts[i].phase.Done?
    requires !StrongRow(ws[j], i) && StrongRow(ws[k], i)
    ensures j <= m < k <= |es| && Confirms(ws, es, i, m)
    decreases k
  {
    hide Inv, Next, Grows, IsRun, Tidy;
    assert j != k;
    StepAt(b, base, ws, es, k);
    RunTidy(b, base, ws, es, k - 1);
    if StrongRow(ws[k - 1], i) {
      m := ConfirmedBetween(b, base, ws, es, i, j, k - 1);
    } else {
      StaysDone(b, base, ws, es, i, j, k - 1);
      StrengthensOnly(b, base, ws[k - 1], es[k - 1], ws[k], i);
      m := k - 1;
    }
  }

  lemma {:induction false} StaysDone(b: Bench, base: nat, ws: seq<World>, es: seq<Event>, i: nat, j: nat, k: nat)
    requires IsRun(b, base, ws, es) && j <= k < |ws| && i < |ws[j].attempts| && ws[j].attempts[i].phase.Done?
    ensures i < |ws[k].attempts| && ws[k].attempts[i].phase == ws[j].attempts[i].phase
    decreases k
  {
    hide Inv, Next, Grows, IsRun, Tidy;
    if j == k {
    } else {
      StaysDone(b, base, ws, es, i, j, k - 1);
      StepAt(b, base, ws, es, k);
      RunTidy(b, base, ws, es, k - 1);
      NextTidyAttempt(b, base, ws[k - 1], es[k - 1], ws[k], i);
    }
  }

  // In every interleaving: a strong row weakens at a step exactly when that step ends a stale absence.
  lemma WeakensIffStale(b: Bench, base: nat, ws: seq<World>, es: seq<Event>, k: nat, i: nat)
    requires IsRun(b, base, ws, es) && k < |es| && StrongRow(ws[k], i)
    ensures !StrongRow(ws[k + 1], i) <==> exists j: nat, m: nat :: StaleAbsence(ws, es, i, j, m, k)
  {
    hide Inv, Next, Grows, Tidy, StaleAbsence;
    if !StrongRow(ws[k + 1], i) {
      var j, m := StaleBehind(b, base, ws, es, k, i);
    }
    if j: nat, m: nat :| StaleAbsence(ws, es, i, j, m, k) {
      StaleWeakens(b, base, ws, es, i, j, m, k);
    }
  }

  lemma StaleBehind(b: Bench, base: nat, ws: seq<World>, es: seq<Event>, k: nat, i: nat)
    returns (j: nat, m: nat)
    requires IsRun(b, base, ws, es) && k < |es| && StrongRow(ws[k], i) && !StrongRow(ws[k + 1], i)
    ensures StaleAbsence(ws, es, i, j, m, k)
  {
    hide Inv, Next, Grows, Tidy, Confirms;
    StepAt(b, base, ws, es, k + 1);
    RunTidy(b, base, ws, es, k);
    WeakensOnly(b, base, ws[k], es[k], ws[k + 1], i);
    j := RecBegan(b, base, ws, es, k, es[k].r);
    m := ConfirmedBetween(b, base, ws, es, i, j + 1, k);
  }

  lemma StaleWeakens(b: Bench, base: nat, ws: seq<World>, es: seq<Event>, i: nat, j: nat, m: nat, k: nat)
    requires IsRun(b, base, ws, es) && StaleAbsence(ws, es, i, j, m, k)
    ensures i < |ws[k + 1].attempts| && ws[k + 1].attempts[i].row.audit.status == ReconciledAbsent
  {
    hide Inv, Next, Grows, Tidy, Confirms;
    StepAt(b, base, ws, es, k + 1);
    RunTidy(b, base, ws, es, k);
    BegunRec(b, base, ws, es, j, i);
    RecKept(b, base, ws, es, j + 1, k, |ws[j].recs|);
    AbsenceWeakens(b, base, ws[k], es[k], ws[k + 1], i);
  }

  lemma BegunRec(b: Bench, base: nat, ws: seq<World>, es: seq<Event>, j: nat, i: nat)
    requires IsRun(b, base, ws, es) && j < |es| && es[j] == BeginReconcile(i)
    ensures i < |ws[j].attempts| && ws[j].attempts[i].row.nonce.Some? && |ws[j + 1].recs| == |ws[j].recs| + 1
    ensures ws[j + 1].recs[|ws[j].recs|] == Reconciliation(i, ws[j].attempts[i].row, [], true)
  {
    hide Genuine, Describes, SenderStep, Init;
    assert Next(b, ws[j], es[j], ws[j + 1]);
  }

  // Row i is confirmed in w' as it was in w: strong, without failure, and with a sequence number if it had one.
  predicate KeepsConfirmation(w: World, w': World, i: nat)
    requires StrongRow(w, i)
  {
    StrongRow(w', i) && w'.attempts[i].row.audit.failure.None?
    && (w.attempts[i].row.audit.number.Some? ==> w'.attempts[i].row.audit.number.Some?)
  }

  // What the documents promise: a row that is confirmed once is so for ever.
  ghost predicate NeverWeakens(ws: seq<World>) {
    forall i: nat, j: nat, k: nat :: j <= k < |ws| && StrongRow(ws[j], i) ==> KeepsConfirmation(ws[j], ws[k], i)
  }

  // A step that leaves a row strong keeps its number, too.
  lemma StrongKeepsNumber(b: Bench, base: nat, w: World, e: Event, w': World, i: nat)
    requires Inv(b, base, w) && Tidy(w) && Next(b, w, e, w') && StrongRow(w, i) && StrongRow(w', i) && Tidy(w')
    ensures KeepsConfirmation(w, w', i)
  {
    OnlyOneChanges(b, base, w, e, w', i);
    assert AttemptTidy(w.attempts[i]) && AttemptTidy(w'.attempts[i]);
    if Sends(e) && e.i == i {
      SenderTidy(b, w, e, w');
    } else if Concludes(w, e, i) {
      var rec := w.recs[e.r];
      UnderReconciliation(b, base, w, rec);
      assert RecTidy(w, rec);
      WriteOf(w.attempts[i], rec.snapshot, e.report);
    }
  }

  // A run keeps that promise exactly when it holds no stale absence.
  lemma NeverWeakensIff(b: Bench, base: nat, ws: seq<World>, es: seq<Event>)
    requires IsRun(b, base, ws, es)
    ensures NeverWeakens(ws) <==> forall i: nat, j: nat, m: nat, k: nat :: !StaleAbsence(ws, es, i, j, m, k)
  {
    hide Inv, Next, Grows, Tidy, Init, StaleAbsence, StrongRow;
    if i: nat, j: nat, m: nat, k: nat :| StaleAbsence(ws, es, i, j, m, k) {
      StaleParts(ws, es, i, j, m, k);
      if StrongRow(ws[k], i) {
        WeakensIffStale(b, base, ws, es, k, i);
      }
      assert !KeepsConfirmation(ws[m + 1], ws[k], i) || !KeepsConfirmation(ws[m + 1], ws[k + 1], i);
    } else {
      forall i: nat, j: nat, k: nat | j <= k < |ws| && StrongRow(ws[j], i)
        ensures KeepsConfirmation(ws[j], ws[k], i)
      {
        StaysStrong(b, base, ws, es, i, j, k);
      }
    }
  }

  lemma StaleParts(ws: seq<World>, es: seq<Event>, i: nat, j: nat, m: nat, k: nat)
    requires |ws| == |es| + 1 && StaleAbsence(ws, es, i, j, m, k)
    ensures j < m < k < |es| && StrongRow(ws[m + 1], i)
  {
  }

  lemma {:induction false} StaysStrong(b: Bench, base: nat, ws: seq<World>, es: seq<Event>, i: nat, j: nat, k: nat)
    requires IsRun(b, base, ws, es) && j <= k < |ws| && StrongRow(ws[j], i)
    requires forall j': nat, m: nat, k': nat :: k' < k ==> !StaleAbsence(ws, es, i, j', m, k')
    ensures KeepsConfirmation(ws[j], ws[k], i)
    decreases k
  {
    hide Inv, Next, Grows, Init, StaleAbsence, StrongRow;
    RunTidy(b, base, ws, es, k);
    if j == k {
      StrongIsTidy(ws[k], i);
    } else {
      StaysStrong(b, base, ws, es, i, j, k - 1);
      WeakensIffStale(b, base, ws, es, k - 1, i);
      RunTidy(b, base, ws, es, k - 1);
      StepAt(b, base, ws, es, k);
      hide IsRun, Tidy;
      StrongKeepsNumber(b, base, ws[k - 1], es[k - 1], ws[k], i);
    }
  }

  lemma StrongIsTidy(w: World, i: nat)
    requires Tidy(w) && StrongRow(w, i)
    ensures KeepsConfirmation(w, w, i)
  {
    assert AttemptTidy(w.attempts[i]);
  }

  // Reconciliations of one row one after another: only the latest one of a row writes (an earlier one has ended or
  // crashed).
  predicate SerialWrite(w: World, e: Event) {
    e.Reconcile? && e.r < |w.recs| ==> forall r :: e.r < r < |w.recs| ==> w.recs[r].attempt != w.recs[e.r].attempt
  }

  predicate SerialWrites(ws: seq<World>, es: seq<Event>)
    requires |ws| == |es| + 1
  {
    forall k :: 0 <= k < |es| ==> SerialWrite(ws[k], es[k])
  }

  lemma SerialNeverStale(b: Bench, base: nat, ws: seq<World>, es: seq<Event>, i: nat, j: nat, m: nat, k: nat)
    requires IsRun(b, base, ws, es) && SerialWrites(ws, es)
    ensures !StaleAbsence(ws, es, i, j, m, k)
  {
    hide Inv, Next, Grows, Tidy, Init;
    if StaleAbsence(ws, es, i, j, m, k) {
      var r, r' := es[k].r, es[m].r;
      BegunRec(b, base, ws, es, j, i);
      RecKept(b, base, ws, es, j + 1, m, r);
      RecKept(b, base, ws, es, j + 1, k, r);
      RecKept(b, base, ws, es, m, k, r');
      assert SerialWrite(ws[m], es[m]) && SerialWrite(ws[k], es[k]);
      assert r == r';
      WrittenOnce(b, base, ws, es, m, k, r);
    }
  }

  lemma WrittenOnce(b: Bench, base: nat, ws: seq<World>, es: seq<Event>, m: nat, k: nat, r: nat)
    requires IsRun(b, base, ws, es) && m < k < |es| && es[m].Reconcile? && es[m].r == r
    requires r < |ws[m].recs|
    ensures !(es[k].Reconcile? && es[k].r == r)
  {
    hide Inv, Grows, Init, Describes, Genuine, SenderStep, Reconciled;
    assert Next(b, ws[m], es[m], ws[m + 1]) && Next(b, ws[k], es[k], ws[k + 1]);
    RecKept(b, base, ws, es, m + 1, k, r);
  }

  // Runs whose reconciliations of one row come one after another keep the promise.
  lemma SerialNeverWeakens(b: Bench, base: nat, ws: seq<World>, es: seq<Event>)
    requires IsRun(b, base, ws, es) && SerialWrites(ws, es)
    ensures NeverWeakens(ws)
  {
    hide Inv, Next, Grows, Tidy, Init, StaleAbsence, StrongRow;
    forall i: nat, j: nat, m: nat, k: nat
      ensures !StaleAbsence(ws, es, i, j, m, k)
    {
      SerialNeverStale(b, base, ws, es, i, j, m, k);
    }
    NeverWeakensIff(b, base, ws, es);
  }

  // A row that its own send confirmed stays confirmed in every interleaving.
  lemma {:induction false} PostedStays(b: Bench, base: nat, ws: seq<World>, es: seq<Event>, i: nat, j: nat, k: nat)
    requires IsRun(b, base, ws, es) && j <= k < |ws| && i < |ws[j].attempts|
    requires ws[j].attempts[i].row.audit.status == Posted
    ensures i < |ws[k].attempts|
    ensures ws[k].attempts[i].row.audit.status == Posted || ws[k].attempts[i].row.audit.status == ReconciledPosted
    ensures forall r | r in ws[k].recs && r.attempt == i :: IsStrong(r.snapshot.audit.status)
    decreases k
  {
    hide Inv, Next, Grows, Init;
    RunTidy(b, base, ws, es, k);
    if j == k {
      assert forall r | r in ws[k].recs && r.attempt == i :: RecTidy(ws[k], r);
    } else {
      PostedStays(b, base, ws, es, i, j, k - 1);
      StepAt(b, base, ws, es, k);
      RunTidy(b, base, ws, es, k - 1);
      PostedStep(b, base, ws[k - 1], es[k - 1], ws[k], i);
    }
  }

  lemma PostedStep(b: Bench, base: nat, w: World, e: Event, w': World, i: nat)
    requires Inv(b, base, w) && Tidy(w) && Next(b, w, e, w') && i < |w.attempts|
    requires w.attempts[i].row.audit.status == Posted || w.attempts[i].row.audit.status == ReconciledPosted
    requires forall r | r in w.recs && r.attempt == i :: IsStrong(r.snapshot.audit.status)
    ensures i < |w'.attempts|
    ensures w'.attempts[i].row.audit.status == Posted || w'.attempts[i].row.audit.status == ReconciledPosted
    ensures forall r | r in w'.recs && r.attempt == i :: IsStrong(r.snapshot.audit.status)
  {
    OnlyOneChanges(b, base, w, e, w', i);
    if !StrongRow(w', i) {
      WeakensOnly(b, base, w, e, w', i);
    }
    assert AttemptTidy(w.attempts[i]);
    NextTidyAttempt(b, base, w, e, w', i);
    hide Inv, Next, Tidy;
    forall r: nat | r < |w'.recs| && w'.recs[r].attempt == i
      ensures IsStrong(w'.recs[r].snapshot.audit.status)
    {
      NextRec(b, base, w, e, w', r);
    }
  }

  // A send that found its text in the room is over: its row never changes, and no reconciliation ever reads it.
  lemma {:induction false} AlreadyPostedStays(
      b: Bench, base: nat, ws: seq<World>, es: seq<Event>, i: nat, j: nat, k: nat)
    requires IsRun(b, base, ws, es) && j <= k < |ws| && i < |ws[j].attempts|
    requires ws[j].attempts[i].row.audit.status == AlreadyPosted
    ensures i < |ws[k].attempts| && ws[k].attempts[i] == ws[j].attempts[i]
    ensures k < |es| ==> es[k] != BeginReconcile(i)
    ensures forall r | r in ws[k].recs :: r.attempt != i
    decreases k
  {
    hide Inv, Next, Grows, Init;
    if j == k {
    } else {
      AlreadyPostedStays(b, base, ws, es, i, j, k - 1);
      StepAt(b, base, ws, es, k);
      RunTidy(b, base, ws, es, k - 1);
      AlreadyPostedStep(b, base, ws[k - 1], es[k - 1], ws[k], i);
    }
    RunTidy(b, base, ws, es, k);
    AlreadyPostedHasNoNonce(b, base, ws[k], i);
    forall r | r in ws[k].recs
      ensures r.attempt != i
    {
      UnderReconciliation(b, base, ws[k], r);
    }
    if k < |es| && es[k] == BeginReconcile(i) {
      BegunRec(b, base, ws, es, k, i);
    }
  }

  lemma AlreadyPostedHasNoNonce(b: Bench, base: nat, w: World, i: nat)
    requires Inv(b, base, w) && Tidy(w) && i < |w.attempts| && w.attempts[i].row.audit.status == AlreadyPosted
    ensures w.attempts[i].row.nonce.None?
  {
    assert AttemptTidy(w.attempts[i]) && AttemptOk(b, w.attempts[i]);
  }

  lemma AlreadyPostedStep(b: Bench, base: nat, w: World, e: Event, w': World, i: nat)
    requires Inv(b, base, w) && Tidy(w) && Next(b, w, e, w') && i < |w.attempts|
    requires w.attempts[i].row.audit.status == AlreadyPosted
    ensures i < |w'.attempts| && w'.attempts[i] == w.attempts[i]
  {
    OnlyOneChanges(b, base, w, e, w', i);
    assert AttemptTidy(w.attempts[i]);
    if Sends(e) && e.i == i {
      SenderTidy(b, w, e, w');
    } else if Concludes(w, e, i) {
      UnderReconciliation(b, base, w, w.recs[e.r]);
    }
  }

  // ---- When the scans of reconciliations are complete ----

  // Step l is the last request of a complete scan: what the reconciliation that ends at k had read contains every
  // Bench entry that its room held at l.
  ghost predicate ReadAt(b: Bench, ws: seq<World>, es: seq<Event>, l: nat, k: nat)
    requires |ws| == |es| + 1
  {
    l < k < |es| && es[k].Reconcile? && es[l].ReadForReconcile? && es[l].r == es[k].r && es[k].r < |ws[k].recs|
    && SeenAll(b, ws[l].log, ws[k].recs[es[k].r].snapshot.room, ws[k].recs[es[k].r].seen)
  }

  // Reconciliations report only real searches as complete.
  ghost predicate CompleteReads(b: Bench, ws: seq<World>, es: seq<Event>)
    requires |ws| == |es| + 1
  {
    forall k: nat :: k < |es| && es[k].Reconcile? && es[k].report.complete ==> exists l: nat :: ReadAt(b, ws, es, l, k)
  }

  lemma ReadLater(b: Bench, ws: seq<World>, es: seq<Event>, ws': seq<World>, es': seq<Event>, l: nat, k: nat)
    requires |ws| == |es| + 1 && |ws'| == |es'| + 1 && ws <= ws' && es <= es' && ReadAt(b, ws, es, l, k)
    ensures ReadAt(b, ws', es', l, k)
  {
    assert ws'[l] == ws[l] && ws'[k] == ws[k] && es'[l] == es[l] && es'[k] == es[k];
  }

  lemma ReadsExtend(b: Bench, ws: seq<World>, es: seq<Event>, e: Event, w: World)
    requires |ws| == |es| + 1 && CompleteReads(b, ws, es)
    requires e.Reconcile? && e.report.complete ==> exists l: nat :: ReadAt(b, ws + [w], es + [e], l, |es|)
    ensures CompleteReads(b, ws + [w], es + [e])
  {
    var ws', es' := ws + [w], es + [e];
    hide ReadAt;
    forall k: nat | k < |es'| && es'[k].Reconcile? && es'[k].report.complete
      ensures exists l: nat :: ReadAt(b, ws', es', l, k)
    {
      if k < |es| {
        assert es'[k] == es[k];
        var l: nat :| ReadAt(b, ws, es, l, k);
        ReadLater(b, ws, es, ws', es', l, k);
      }
    }
  }

  // Every entry that attempt i left in the log carries a sequence number.
  lemma OwnEntryNumbered(b: Bench, base: nat, ws: seq<World>, es: seq<Event>, k: nat, x: Entry)
    requires IsRun(b, base, ws, es) && k < |ws| && x in ws[k].log && x.message.sender == b.did
    requires x.origin.FromAttempt?
    ensures x.message.number.Some?
  {
    hide Inv, Next, Grows;
    NothingAtFirst(b, base, ws, es, x);
    var m := AppliedBetween(b, base, ws, es, 0, k, x);
  }

  lemma NothingAtFirst(b: Bench, base: nat, ws: seq<World>, es: seq<Event>, x: Entry)
    requires IsRun(b, base, ws, es) && x.message.sender == b.did && x.origin.FromAttempt?
    ensures x !in ws[0].log
  {
  }

  // Once a reconciliation has confirmed a row, every entry of its attempt matches it.
  lemma OwnEntryMatches(b: Bench, base: nat, w: World, rec: Reconciliation, y: Entry)
    requires Inv(b, base, w) && rec in w.recs && rec.attempt < |w.attempts|
    requires w.attempts[rec.attempt].row.audit.status == ReconciledPosted
    requires y in w.log && y.message.sender == b.did && y.origin == FromAttempt(rec.attempt)
    requires y.message.number.Some?
    ensures y.room == rec.snapshot.room && Hit(y.message, KeyOf(b, rec.snapshot), rec.snapshot.nonce, SameNonce)
  {
    var a := w.attempts[rec.attempt];
    assert RecOk(w, rec) && AttemptOk(b, a) && EntryOk(b, base, w, y);
    assert Backed(b, w, rec.attempt);
    var x :| x in w.log && Backs(b, w, rec.attempt, x);
    assert EntryOk(b, base, w, x);
  }

  // The reconciliation that concludes at k overlooked no entry of its attempt that it could have seen.
  lemma NothingOverlooked(b: Bench, base: nat, ws: seq<World>, es: seq<Event>, k: nat, l: nat, y: Entry)
    requires IsRun(b, base, ws, es) && ReadAt(b, ws, es, l, k) && es[k].report.tally.attemptSeq.None?
    requires var i := ws[k].recs[es[k].r].attempt;
             i < |ws[k].attempts| && ws[k].attempts[i].row.audit.status == ReconciledPosted
             && y.origin == FromAttempt(i) && y.message.sender == b.did
    ensures y !in ws[l].log
  {
    if y in ws[l].log {
      hide Grows;
      var rec := ws[k].recs[es[k].r];
      RunGrows(b, base, ws, es, l, k);
      LogsGrow(ws[l], ws[k], y);
      RunInv(b, base, ws, es, k);
      OwnEntryNumbered(b, base, ws, es, k, y);
      OwnEntryMatches(b, base, ws[k], rec, y);
      assert y.message in rec.seen;
      DescribesSeen(b, base, ws, es, k);
    }
  }

  lemma LogsGrow(w: World, w': World, y: Entry)
    requires Grows(w, w') && y in w.log
    ensures y in w'.log
  {
  }

  lemma DescribesSeen(b: Bench, base: nat, ws: seq<World>, es: seq<Event>, k: nat)
    requires IsRun(b, base, ws, es) && k < |es| && es[k].Reconcile? && es[k].r < |ws[k].recs|
    ensures var rec := ws[k].recs[es[k].r];
            Describes(es[k].report.tally, rec.seen, KeyOf(b, rec.snapshot), rec.snapshot.nonce)
  {
    hide Describes, Genuine;
    assert Next(b, ws[k], es[k], ws[k + 1]);
  }

  // Behind every row that weakens after a complete scan stands a late POST: at the last request of that scan no POST
  // of the attempt had been applied yet, and before the write one was.
  lemma WeakenedByLatePost(b: Bench, base: nat, ws: seq<World>, es: seq<Event>, k: nat, i: nat, l: nat)
    returns (m: nat)
    requires IsRun(b, base, ws, es) && ReadAt(b, ws, es, l, k)
    requires StrongRow(ws[k], i) && !StrongRow(ws[k + 1], i)
    ensures l <= m < k && es[m].Apply? && es[m].post.attempt == i
    ensures forall y | y in ws[l].log && y.message.sender == b.did :: y.origin != FromAttempt(i)
  {
    hide Inv, Next, Grows, Tidy, ReadAt;
    ReadIsBefore(b, ws, es, l, k);
    StepAt(b, base, ws, es, k + 1);
    RunTidy(b, base, ws, es, k);
    WeakensOnly(b, base, ws[k], es[k], ws[k + 1], i);
    forall y | y in ws[l].log && y.message.sender == b.did
      ensures y.origin != FromAttempt(i)
    {
      if y.origin == FromAttempt(i) {
        NothingOverlooked(b, base, ws, es, k, l, y);
      }
    }
    AttributionSound(b, base, ws, es, k, i);
    var x :| x in ws[k].log && Backs(b, ws[k], i, x);
    m := AppliedBetween(b, base, ws, es, l, k, x);
  }

  lemma ReadIsBefore(b: Bench, ws: seq<World>, es: seq<Event>, l: nat, k: nat)
    requires |ws| == |es| + 1 && ReadAt(b, ws, es, l, k)
    ensures l < k < |es|
  {
  }
}
