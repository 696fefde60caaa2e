// How one reconciliation observation changes an audit row (src/flop_bench/posting.py, execution.py).
module Reconcile {
  import opened Common
  import opened HistoryScan
  import opened Paging
  import opened RoomLog

  const ABSENT := "absent_not_proven_rejected"

  datatype Status =
    | Started | FailedPreflight | AlreadyPosted | Posted | Failed | FailedPreTransmission
    | UnknownOutcome | ConfirmedRejected | ReconciledPosted | ReconciledAbsent

  // The columns of post_attempts or mailbox_result_deliveries that reconciliation may change.
  datatype Audit = Audit(status: Status, number: Option<int>, failure: Option<string>)

  datatype Observed = SeenPosted | SeenOtherNonce | SeenAbsent | SeenIncomplete | SeenUnknown

  datatype Observation = Observation(status: Observed, number: Option<int>, failure: Option<string>)

  datatype Transition = Transition(write: bool, audit: Audit)

  predicate IsStrong(s: Status) {
    s == Posted || s == ReconciledPosted || s == AlreadyPosted
  }

  // posting.monotonic_reconciliation_transition
  function PostTransition(current: Audit, o: Observation): Transition {
    match o.status
    case SeenPosted =>
      var number := if o.number.Some? then o.number else current.number;
      Transition(current.status != ReconciledPosted || current.number != number || current.failure.Some?,
                 Audit(ReconciledPosted, number, None))
    case SeenAbsent =>
      if IsStrong(current.status) then Transition(false, current)
      else Transition(current.status != ReconciledAbsent || current.failure != o.failure,
                      Audit(ReconciledAbsent, current.number, o.failure))
    case _ => Transition(false, current)
  }

  // execution._result_delivery_transition
  function DeliveryTransition(current: Audit, o: Observation): Transition {
    match o.status
    case SeenPosted =>
      Transition(current.status != ReconciledPosted || current.number != o.number || current.failure.Some?,
                 Audit(ReconciledPosted, if o.number.Some? then o.number else current.number, None))
    case SeenAbsent =>
      if IsStrong(current.status) then Transition(false, current)
      else Transition(current.status != ReconciledAbsent || current.failure != o.failure,
                      Audit(ReconciledAbsent, current.number, o.failure))
    case _ => Transition(false, current)
  }

  // What reconcile_post and reconcile_result_delivery conclude from a scan.
  function ObservationOf(r: Report, current: Audit): Observation {
    if r.tally.attemptSeq.Some? then Observation(SeenPosted, r.tally.attemptSeq, None)
    else if r.tally.other.Some? then Observation(SeenOtherNonce, current.number, None)
    else if r.complete then Observation(SeenAbsent, None, Some(ABSENT))
    else Observation(SeenIncomplete, current.number,
                     if r.failure.Some? then r.failure else Some("history_scan_incomplete"))
  }

  // Under the shipped limits a room of 2000 entries or more can never be searched completely: every preflight of an
  // honest server fails, and no reconciliation ever concludes absence.
  lemma LargeRoomNeverSearched(key: Key, attempt: Option<int>, net: Network, t: Truth, r: Report, seen: seq<Message>,
                               requests: nat, current: Audit)
    requires Scanned(key, attempt, net, HISTORY_LIMITS, t, r, seen, requests)
    requires IsHonest(net, HISTORY_LIMITS, t) && |t.logs(0)| >= 2_000
    ensures !r.complete && ObservationOf(r, current).status != SeenAbsent
  {
    hide Describes, SeenPartOf, SeenAllOf, Undisturbed, IsLog, EntriesAfter, ReadsAll;
    assert requests > 0 ==> t.logs(0) <= t.logs(requests - 1);
  }

  // Its first 2000 entries are searched all the same, when the server answers in time and within the byte limit: a
  // reconciliation still finds its message there and concludes from it.
  lemma LargeRoomFrontSearched(key: Key, attempt: Option<int>, net: Network, t: Truth, r: Report, seen: seq<Message>,
                               requests: nat, current: Audit, i: nat)
    requires Scanned(key, attempt, net, HISTORY_LIMITS, t, r, seen, requests)
    requires Undisturbed(net, HISTORY_LIMITS, t) && TotalSize(t.sizes, 10) <= HISTORY_LIMITS.maxBytes
    requires i < 2_000 && i < |t.logs(0)| && Hit(Canonical(t.logs(0)[i]), key, attempt, SameNonce)
    ensures ObservationOf(r, current).status == SeenPosted
    ensures ObservationOf(r, current).number == r.tally.attemptSeq && r.tally.attemptSeq.Some?
    ensures r.tally.attemptSeq.value <= Canonical(t.logs(0)[i]).number.value
  {
    hide Describes, SeenPartOf, SeenAllOf, Honest, ReadsAll, CompletesWhen, AnswersInTime, Fits;
    if !r.complete && r.pages < 10 {
      TotalSizeGrows(t.sizes, r.pages + 1, 10);
    }
    FrontIsRead(key, attempt, net, HISTORY_LIMITS, t, r, seen, requests, i);
  }

  // What a reconciliation concludes, read off the messages that its scan saw: its own message first, then one that
  // carries another nonce, and only then whether the search was complete.
  lemma ObservationMeans(key: Key, attempt: Option<int>, seen: seq<Message>, r: Report, current: Audit)
    requires Describes(r.tally, seen, key, attempt)
    ensures var o := ObservationOf(r, current);
            var own := exists m | m in seen :: Hit(m, key, attempt, SameNonce);
            var foreign := exists m | m in seen :: Hit(m, key, attempt, DifferentNonce);
            (o.status == SeenPosted <==> own)
            && (o.status == SeenOtherNonce <==> !own && foreign)
            && (o.status == SeenAbsent <==> !own && !foreign && r.complete)
            && (o.status == SeenIncomplete <==> !own && !foreign && !r.complete)
            && (own ==>
                  o.number.Some? && exists m | m in seen :: Hit(m, key, attempt, SameNonce) && m.number == o.number)
            && (o.status == SeenAbsent ==> o.failure == Some("absent_not_proven_rejected"))
            && (o.status == SeenIncomplete ==>
                  o.failure == if r.failure.None? then Some("history_scan_incomplete") else r.failure)
  {
    hide FirstHit, Hit;
  }

  // The post version writes exactly when it changes the row.
  lemma PostWritesIffChanged(current: Audit, o: Observation)
    ensures PostTransition(current, o).write <==> PostTransition(current, o).audit != current
  {
  }

  // The one input on which the delivery version rewrites an unchanged row.
  predicate IdleRewrite(current: Audit, o: Observation) {
    o.status == SeenPosted && o.number.None?
    && current.status == ReconciledPosted && current.number.Some? && current.failure.None?
  }

  // The versions agree except there; in the audit columns they always agree.
  lemma TransitionsAgreeIff(current: Audit, o: Observation)
    ensures PostTransition(current, o) == DeliveryTransition(current, o) <==> !IdleRewrite(current, o)
    ensures PostTransition(current, o).audit == DeliveryTransition(current, o).audit
    ensures (DeliveryTransition(current, o).write <==> DeliveryTransition(current, o).audit != current)
            <==> !IdleRewrite(current, o)
  {
  }

  lemma IdleRewriteExists()
    ensures var current := Audit(ReconciledPosted, Some(7), None);
            var o := Observation(SeenPosted, None, None);
            DeliveryTransition(current, o) == Transition(true, current)
            && PostTransition(current, o) == Transition(false, current)
  {
  }

  // Observations that ObservationOf produces.
  predicate FromScan(o: Observation) {
    (o.status == SeenPosted ==> o.number.Some?) && (o.status == SeenAbsent ==> o.failure == Some(ABSENT))
  }

  // Whatever a scan reports, both versions do the same.
  lemma ScansAgree(r: Report, current: Audit)
    ensures FromScan(ObservationOf(r, current))
    ensures PostTransition(current, ObservationOf(r, current)) == DeliveryTransition(current, ObservationOf(r, current))
  {
    TransitionsAgreeIff(current, ObservationOf(r, current));
  }

  // Serialized reconciliations of one row.
  function Settle(a: Audit, os: seq<Observation>): Audit {
    if os == [] then a else PostTransition(Settle(a, os[..|os| - 1]), os[|os| - 1]).audit
  }

  ghost predicate ExactMatchesAgree(os: seq<Observation>) {
    forall o, o' | o in os && o' in os :: o.status == SeenPosted && o'.status == SeenPosted ==> o.number == o'.number
  }

  // The order-free reading of a list of observations: a is settled to b.
  ghost predicate SettlesTo(a: Audit, os: seq<Observation>, b: Audit) {
    if exists o | o in os :: o.status == SeenPosted then
      forall o | o in os :: o.status == SeenPosted ==> b == Audit(ReconciledPosted, o.number, None)
    else if !IsStrong(a.status) && exists o | o in os :: o.status == SeenAbsent then
      b == Audit(ReconciledAbsent, a.number, Some(ABSENT))
    else b == a
  }

  lemma SettlesNext(a: Audit, os: seq<Observation>, b: Audit, o: Observation)
    requires SettlesTo(a, os, b) && FromScan(o) && ExactMatchesAgree(os + [o])
    ensures SettlesTo(a, os + [o], PostTransition(b, o).audit)
  {
    var all := os + [o];
    assert o in all && forall x :: x in all <==> x in os || x == o;
    if exists x | x in os :: x.status == SeenPosted {
      var x :| x in os && x.status == SeenPosted;
      assert b == Audit(ReconciledPosted, x.number, None);
      assert x in all;
    } else if o.status != SeenPosted && exists x | x in os :: x.status == SeenAbsent {
      var x :| x in os && x.status == SeenAbsent;
      assert x in all;
    }
  }

  lemma {:induction false} SettleMeaning(a: Audit, os: seq<Observation>)
    requires forall o | o in os :: FromScan(o)
    requires ExactMatchesAgree(os)
    ensures SettlesTo(a, os, Settle(a, os))
  {
    if os == [] {
    } else {
      var before, last := os[..|os| - 1], os[|os| - 1];
      assert os == before + [last];
      assert forall o :: o in os <==> o in before || o == last;
      hide SettlesTo, PostTransition, FromScan;
      SettleMeaning(a, before);
      SettlesNext(a, before, Settle(a, before), last);
    }
  }

  // Order and repetition of the observations do not matter.
  lemma SettleOrderFree(a: Audit, os: seq<Observation>, os': seq<Observation>)
    requires forall o | o in os :: FromScan(o)
    requires ExactMatchesAgree(os)
    requires forall o :: o in os <==> o in os'
    ensures Settle(a, os) == Settle(a, os')
  {
    SettleMeaning(a, os);
    SettleMeaning(a, os');
  }

  // No serialized reconciliation weakens a row or forgets its sequence number, and one exact match is final.
  lemma SettleMonotone(a: Audit, os: seq<Observation>)
    requires forall o | o in os :: FromScan(o)
    requires ExactMatchesAgree(os)
    ensures IsStrong(a.status) ==> IsStrong(Settle(a, os).status)
    ensures a.number.Some? ==> Settle(a, os).number.Some?
    ensures (exists o | o in os :: o.status == SeenPosted) ==>
              Settle(a, os).status == ReconciledPosted && Settle(a, os).failure.None?
    ensures Settle(a, os).status == ReconciledPosted ==>
              a.status == ReconciledPosted || exists o | o in os :: o.status == SeenPosted
  {
    SettleMeaning(a, os);
  }
}
