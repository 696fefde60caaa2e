// What failed_pre_transmission promises: no POST of that attempt is on its way or in a room
// (src/flop_bench/posting.py).
module NeverSent {
  import opened Common
  import opened RoomLog
  import opened HistoryScan
  import opened Reconcile
  import opened Delivery
  import opened SerialDelivery
  import opened Downgrades

  // A transport names a failure of the connection only when it did not get the request out.
  ghost predicate TruthfulTransport(es: seq<Event>) {
    forall j, k :: 0 <= j < k < |es| && es[j].Transmit? && es[j].accepted && es[k].Conclude? && es[k].i == es[j].i ==>
      !(es[k].reply.NoReply? && NeverSent(es[k].reply.classification))
  }

  // Attempt i has a POST on its way or an entry in a log.
  ghost predicate Traces(b: Bench, w: World, i: nat) {
    (exists p | p in w.posts :: p.attempt == i)
    || exists x | x in w.log :: x.message.sender == b.did && x.origin == FromAttempt(i)
  }

  lemma NewTrace(b: Bench, w: World, e: Event, w': World, i: nat)
    requires AttemptsOk(b, w) && RecsOk(w) && Next(b, w, e, w') && Traces(b, w', i) && !Traces(b, w, i)
    ensures e == Transmit(i, true)
  {
    hide Describes, Genuine;
    if Sends(e) {
      SenderShape(b, w, e, w');
    } else if e.Reconcile? {
      ReconcileShape(b, w, e, w');
    }
  }

  // Behind every trace of an attempt stands a transmission.
  lemma {:induction false} TraceWasTransmitted(b: Bench, base: nat, ws: seq<World>, es: seq<Event>, k: nat, i: nat)
    returns (j: nat)
    requires IsRun(b, base, ws, es) && k < |ws| && Traces(b, ws[k], i)
    ensures j < k <= |es| && es[j] == Transmit(i, true)
  {
    hide Inv, Next, Grows;
    if k == 0 {
    } else {
      hide IsRun, Traces;
      StepAt(b, base, ws, es, k);
      InvParts(b, base, ws[k - 1]);
      if Traces(b, ws[k - 1], i) {
        j := TraceWasTransmitted(b, base, ws, es, k - 1, i);
      } else {
        NewTrace(b, ws[k - 1], es[k - 1], ws[k], i);
        j := k - 1;
      }
    }
  }

  // The status comes only from a reply that names such a failure.
  lemma NewlyNeverSent(b: Bench, w: World, e: Event, w': World, i: nat)
    requires AttemptsOk(b, w) && RecsOk(w) && Next(b, w, e, w') && i < |w'.attempts|
    requires w'.attempts[i].row.audit.status == FailedPreTransmission
    ensures i < |w.attempts|
    ensures w.attempts[i].row.audit.status == FailedPreTransmission
            || (e.Conclude? && e.i == i && w'.attempts[i].phase.Done?
                && e.reply.NoReply? && NeverSent(e.reply.classification))
  {
    hide Describes, Genuine;
    if e.Reconcile? {
      ReconcileShape(b, w, e, w');
    }
  }

  lemma {:induction false} WasConcluded(b: Bench, base: nat, ws: seq<World>, es: seq<Event>, k: nat, i: nat)
    returns (c: nat)
    requires IsRun(b, base, ws, es) && k < |ws| && i < |ws[k].attempts|
    requires ws[k].attempts[i].row.audit.status == FailedPreTransmission
    ensures c < k <= |es| && es[c].Conclude? && es[c].i == i
    ensures es[c].reply.NoReply? && NeverSent(es[c].reply.classification)
    ensures i < |ws[c + 1].attempts| && ws[c + 1].attempts[i].phase.Done?
  {
    hide Inv, Next, Grows;
    if k == 0 {
      NothingYet(b, base, ws, es, i);
    } else {
      hide IsRun;
      StepAt(b, base, ws, es, k);
      InvParts(b, base, ws[k - 1]);
      NewlyNeverSent(b, ws[k - 1], es[k - 1], ws[k], i);
      if ws[k - 1].attempts[i].row.audit.status == FailedPreTransmission {
        c := WasConcluded(b, base, ws, es, k - 1, i);
      } else {
        c := k - 1;
      }
    }
  }

  // In every interleaving with such transports, a row that reads failed_pre_transmission has left nothing: no POST on
  // its way, and no entry in any room.
  lemma NothingWasSent(b: Bench, base: nat, ws: seq<World>, es: seq<Event>, k: nat, i: nat)
    requires IsRun(b, base, ws, es) && TruthfulTransport(es) && k < |ws| && i < |ws[k].attempts|
    requires ws[k].attempts[i].row.audit.status == FailedPreTransmission
    ensures !Traces(b, ws[k], i)
  {
    hide Inv, Next, Grows, Traces;
    if Traces(b, ws[k], i) {
      var c := WasConcluded(b, base, ws, es, k, i);
      var j := TraceWasTransmitted(b, base, ws, es, k, i);
      assert c < j;
      StaysDone(b, base, ws, es, i, c + 1, j);
      StepAt(b, base, ws, es, j + 1);
      EndedNeverTransmits(b, ws[j], es[j], ws[j + 1], i);
    }
  }

  lemma EndedNeverTransmits(b: Bench, w: World, e: Event, w': World, i: nat)
    requires i < |w.attempts| && w.attempts[i].phase.Done? && Next(b, w, e, w')
    ensures e != Transmit(i, true)
  {
  }

  predicate EndedWithoutNonce(a: Attempt) {
    a.row.audit.status == FailedPreflight || a.row.audit.status == AlreadyPosted
  }

  lemma StopsWithoutNonce(b: Bench, w: World, e: Event, w': World, i: nat)
    requires AttemptsOk(b, w) && RecsOk(w) && Next(b, w, e, w')
    requires i < |w'.attempts| && EndedWithoutNonce(w'.attempts[i])
    requires i < |w.attempts| && EndedWithoutNonce(w.attempts[i]) ==> w.attempts[i].phase == Done(None)
    ensures w'.attempts[i].phase == Done(None)
  {
    hide Describes, Genuine, AttemptOk;
    if e.Reconcile? {
      ReconcileShape(b, w, e, w');
    }
  }

  // A send that its preflight stopped has left nothing either, whatever the transports say.
  lemma {:induction false} StoppedMeansUnsent(b: Bench, base: nat, ws: seq<World>, es: seq<Event>, k: nat, i: nat)
    requires IsRun(b, base, ws, es) && k < |ws| && i < |ws[k].attempts| && EndedWithoutNonce(ws[k].attempts[i])
    ensures ws[k].attempts[i].phase == Done(None) && !Traces(b, ws[k], i)
  {
    hide Inv, Next, Grows, Traces, EndedWithoutNonce;
    RunInv(b, base, ws, es, k);
    if k == 0 {
      NothingYet(b, base, ws, es, i);
    } else {
      hide IsRun;
      StepAt(b, base, ws, es, k);
      InvParts(b, base, ws[k - 1]);
      if i < |ws[k - 1].attempts| && EndedWithoutNonce(ws[k - 1].attempts[i]) {
        StoppedMeansUnsent(b, base, ws, es, k - 1, i);
      }
      StopsWithoutNonce(b, ws[k - 1], es[k - 1], ws[k], i);
    }
    NoNonceNoTrace(b, base, ws[k], i);
  }

  lemma NoNonceNoTrace(b: Bench, base: nat, w: World, i: nat)
    requires Inv(b, base, w) && i < |w.attempts| && w.attempts[i].phase == Done(None)
    ensures !Traces(b, w, i)
  {
    forall p | p in w.posts
      ensures p.attempt != i
    {
      assert SentBy(w, p.attempt, p.room, p.nonce, p.text);
    }
    forall x | x in w.log && x.message.sender == b.did
      ensures x.origin != FromAttempt(i)
    {
      assert EntryOk(b, base, w, x);
    }
  }
}
