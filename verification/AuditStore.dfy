// The audit tables and the nonce allocator as a mutable store, with the operations that write them
// (src/flop_bench/state.py, posting.py, execution.py). Each operation is proved to be a path of the
// interleaving model, here without interference while it runs.
module AuditStore {
  import opened Common
  import opened RoomLog
  import opened HistoryScan
  import opened Reconcile
  import opened Delivery
  import opened SerialDelivery
  import opened Downgrades
  import opened ServedScans
  import Preimage

  // get_note and the ownership test of send_post; result deliveries have no such check.
  datatype OwnerCheck = NotRequired | Verified | Unverified(response: Option<int>, failure: string)

  // A path of the model that belongs to one operation: serial steps, and every clear and every complete reconciliation
  // behind a complete scan.
  ghost predicate IsPath(b: Bench, ws: seq<World>, es: seq<Event>) {
    |ws| == |es| + 1 && IsOrderly(b, ws, es)
    && forall k :: 0 <= k < |es| ==> Next(b, ws[k], es[k], ws[k + 1])
  }

  ghost predicate IsOrderly(b: Bench, ws: seq<World>, es: seq<Event>)
    requires |ws| == |es| + 1
  {
    IsSerial(ws, es) && SerialWrites(ws, es) && CompleteScans(b, ws, es) && CompleteReads(b, ws, es)
  }

  // An honest server whose log consists of the entries of the room in w.
  ghost predicate Serves(net: Network, t: Truth, w: World, room: string) {
    IsHonest(net, HISTORY_LIMITS, t) && forall k: nat :: IsRoom(t.logs(k), w.log, room)
  }

  // The report comes from a scan for the row under the shipped limits.
  ghost predicate ScanDone(b: Bench, row: Row, attempt: Option<int>, net: Network, t: Truth, r: Report) {
    exists seen: seq<Message>, requests: nat ::
      Scanned(KeyOf(b, row), attempt, net, HISTORY_LIMITS, t, r, seen, requests)
  }

  // The preflight lets the send go on.
  predicate Clears(r: Report, owner: OwnerCheck) {
    r.complete && r.tally.exactSeq.None? && !owner.Unverified?
  }

  // The row that a preflight leaves behind when it does not.
  function Refused(row: Row, r: Report, owner: OwnerCheck): Row
    requires !Clears(r, owner)
  {
    if !r.complete then row.(audit := Audit(FailedPreflight, None, r.failure))
    else if r.tally.exactSeq.Some? then row.(audit := Audit(AlreadyPosted, r.tally.exactSeq, None))
    else row.(audit := Audit(FailedPreflight, None, Some(owner.failure)), response := owner.response)
  }

  // Why a reconciliation refuses its row before it asks the server.
  datatype Refusal = UnknownAttempt | WrongRoom | ForeignDid | MissingNonce

  // Posts are reconciled in the agent's own room only, result deliveries in mailbox rooms only.
  ghost predicate RightRoom(row: Row) {
    match row.table
    case PostAttempts => row.room == "d-flop-bench"
    case ResultDeliveries => Preimage.IsMailboxRoom(row.room)
  }

  ghost predicate MayReconcile(b: Bench, row: Row) {
    RightRoom(row) && row.did == b.did && row.nonce.Some?
  }

  // The row after its POST, or after the signature failed.
  function Delivered(b: Bench, row: Row, text: string, nonce: int, signs: bool, reply: PostReply): Row {
    var c := Conclusion(reply, b.did, text, nonce);
    if signs then row.(audit := c.0, response := c.1, nonce := Some(nonce))
    else row.(audit := Audit(Failed, None, Some("signing_failure")), response := None, nonce := Some(nonce))
  }

  lemma SeenIsGenuine(net: Network, t: Truth, w: World, room: string, seen: seq<Message>, k: nat)
    requires Serves(net, t, w, room)
    requires SeenPartOf(net.server, HISTORY_LIMITS.pageLimit, t.logs, seen, k) && (k == 0 ==> seen == [])
    ensures Genuine(w.log, room, seen)
  {
    if k > 0 {
      assert IsRoom(t.logs(k - 1), w.log, room);
      assert forall m :: m in seen ==> m in CanonicalAll(t.logs(k - 1));
    }
  }

  lemma ServedInFull(b: Bench, net: Network, t: Truth, w: World, room: string, seen: seq<Message>, k: nat)
    requires Serves(net, t, w, room) && SeenAllOf(net.server, HISTORY_LIMITS.pageLimit, t.logs, seen, k)
    ensures SeenAll(b, w.log, room, seen)
  {
    hide IsRoom, IsHonest, SeenAllOf, SeenAll;
    CompleteSeesAll(b, net, t, w.log, room, seen, k);
  }

  lemma PathStep(b: Bench, ws: seq<World>, es: seq<Event>, e: Event, w: World)
    requires IsPath(b, ws, es) && Next(b, ws[|ws| - 1], e, w) && SerialStep(ws[|ws| - 1], e)
    requires SerialWrite(ws[|ws| - 1], e)
    requires e.ClearPreflight? ==> exists r: nat :: ScannedAt(b, ws + [w], es + [e], e.i, r, |es|)
    requires e.Reconcile? && e.report.complete ==> exists l: nat :: ReadAt(b, ws + [w], es + [e], l, |es|)
    ensures IsPath(b, ws + [w], es + [e])
  {
    hide ScannedAt, ReadAt, SerialStep, SerialWrite, Next, CompleteScans, CompleteReads;
    ScansExtend(b, ws, es, e, w);
    ReadsExtend(b, ws, es, e, w);
  }

  class Store {
    var counter: Option<int>
    var rows: seq<Row>
    ghost var world: World

    ghost predicate Valid()
      reads this
    {
      counter == world.counter && |rows| == |world.attempts|
      && forall i :: 0 <= i < |rows| ==> rows[i] == world.attempts[i].row
    }

    // A state directory as first used, beside the rooms as they are then: the start of a run.
    constructor (b: Bench, ghost log: seq<Entry>)
      requires Init(b, 0, World(None, [], [], {}, log))
      ensures Valid() && counter.None? && rows == [] && world.log == log
      ensures IsRun(b, 0, [world], []) && IsPath(b, [world], [])
    {
      counter, rows, world := None, [], World(None, [], [], {}, log);
      new;
      StartPath(b, world);
    }

    // state.next_post_nonce: strictly above every nonce handed out before, whatever the clock says.
    method NextPostNonce(nowMs: int) returns (nonce: int)
      modifies this`counter
      ensures counter == Some(nonce) && nonce == NextNonce(old(counter), nowMs)
      ensures nonce > Last(old(counter)) && nonce >= nowMs
    {
      var previous := if counter.Some? then counter.value else 0;
      nonce := if nowMs > previous + 1 then nowMs else previous + 1;
      counter := Some(nonce);
    }

    // update_post_attempt and update_result_delivery_attempt
    method Update(i: nat, audit: Audit, response: Option<int>, nonce: Option<int>)
      requires i < |rows|
      modifies this`rows
      ensures rows == old(rows)[i := old(rows)[i].(audit := audit, response := response, nonce := nonce)]
    {
      rows := rows[i := rows[i].(audit := audit, response := response, nonce := nonce)];
    }

    // One audit write that ends a send, as event e of the model.
    method Close(b: Bench, i: nat, audit: Audit, response: Option<int>, used: Option<int>,
                 ghost e: Event, ghost ws0: seq<World>, ghost es0: seq<Event>)
      returns (ghost ws: seq<World>, ghost es: seq<Event>)
      requires Valid() && i < |rows| && IsPath(b, ws0, es0) && ws0[|ws0| - 1] == world
      requires !e.ClearPreflight? && !e.Reconcile? && SerialStep(world, e)
      requires Next(b, world, e, SetAttempt(world, i, Finish(world.attempts[i], audit, response, used)))
      modifies this`rows, this`world
      ensures Valid() && world == SetAttempt(old(world), i, Finish(old(world).attempts[i], audit, response, used))
      ensures rows == old(rows)[i := old(rows)[i].(audit := audit, response := response, nonce := used)]
      ensures IsPath(b, ws, es) && ws == ws0 + [world] && es == es0 + [e]
    {
      Update(i, audit, response, used);
      world := SetAttempt(world, i, Finish(world.attempts[i], audit, response, used));
      PathStep(b, ws0, es0, e, world);
      ws, es := ws0 + [world], es0 + [e];
    }

    // The audit row and the history scan: the new row and what the scan found.
    method BeginSend(b: Bench, table: Table, room: string, text: string, net: Network, ghost t: Truth)
      returns (i: nat, report: Report, ghost ws: seq<World>, ghost es: seq<Event>)
      requires Valid() && Serves(net, t, world, room)
      modifies this`rows, this`world
      ensures Valid() && i == |old(rows)| && rows == old(rows) + [NewRow(b, table, room, text)]
      ensures IsPath(b, ws, es) && ws[0] == old(world) && ws[|ws| - 1] == world
      ensures world.counter == old(world).counter && world.log == old(world).log && world.posts == old(world).posts
      ensures |world.attempts| == i + 1 && world.attempts[..i] == old(world).attempts
      ensures ScanDone(b, rows[i], None, net, t, report) && (report.complete <==> report.failure.None?)
      ensures var a := world.attempts[i];
              a.text == text && a.row == rows[i] && a.phase.Scanning?
              && Describes(report.tally, a.phase.seen, KeyOf(b, a.row), None)
              && (report.complete ==> SeenAll(b, world.log, room, a.phase.seen))
      ensures |es| == 2 && es[1].ReadHistory? && es[1].i == i && ws[1].log == world.log
    {
      hide Scanned, ScanDone, Describes, Serves, IsPath, SeenAll, SeenPartOf, SeenAllOf;
      i := |rows|;
      rows := rows + [NewRow(b, table, room, text)];
      var key := KeyOf(b, NewRow(b, table, room, text));
      var r;
      ghost var seen, requests;
      r, seen, requests := ScanRoomHistory(key, None, net, HISTORY_LIMITS, t);
      report := r.value;
      ScanIsDone(b, NewRow(b, table, room, text), None, net, t, report, seen, requests);
      ScannedParts(key, None, net, HISTORY_LIMITS, t, report, seen, requests);
      SeenIsGenuine(net, t, world, room, seen, requests);
      if report.complete {
        ServedInFull(b, net, t, world, room, seen, requests);
      }
      world, ws, es := BeginPath(b, world, table, room, text, seen);
    }

    // Everything before the nonce: the audit row, the history scan and the ownership check.
    method Preflight(b: Bench, table: Table, room: string, text: string, net: Network, owner: OwnerCheck,
                     ghost t: Truth)
      returns (i: nat, report: Report, ghost ws: seq<World>, ghost es: seq<Event>)
      requires Valid() && Serves(net, t, world, room)
      modifies this`rows, this`world
      ensures Valid() && IsPath(b, ws, es) && ws[0] == old(world) && ws[|ws| - 1] == world
      ensures ws != [] && ScanDone(b, NewRow(b, table, room, text), None, net, t, report)
      ensures var row := NewRow(b, table, room, text);
              i == |old(rows)|
              && rows == old(rows) + [if Clears(report, owner) then row else Refused(row, report, owner)]
      ensures world.posts == old(world).posts && world.counter == old(world).counter
      ensures |world.attempts| == i + 1 && world.attempts[i].text == text
      ensures Clears(report, owner) <==> world.attempts[i].phase.Cleared?
    {
      hide Describes, Serves, Next, IsPath, ScanDone, SeenAll, SerialStep;
      i, report, ws, es := BeginSend(b, table, room, text, net, t);
      var tally := report.tally;
      if !report.complete {
        StopEnabled(b, world, i, None, report.failure.value);
        ws, es := Close(b, i, Audit(FailedPreflight, None, report.failure), None, None,
                        StopPreflight(i, None, report.failure.value), ws, es);
        return;
      }
      if tally.exactSeq.Some? {
        FindEnabled(b, world, i, tally);
        ws, es := Close(b, i, Audit(AlreadyPosted, tally.exactSeq, None), None, None, FindDuplicate(i, tally), ws, es);
        return;
      }
      world, ws, es := ClearPath(b, world, i, tally, ws, es);
      if owner.Unverified? {
        StopEnabled(b, world, i, owner.response, owner.failure);
        ws, es := Close(b, i, Audit(FailedPreflight, None, Some(owner.failure)), owner.response, None,
                        StopPreflight(i, owner.response, owner.failure), ws, es);
      }
    }

    // send_post and send_result_delivery, run without interference: a serial path of the model whose clear stands
    // behind a complete scan, and everything it leaves in the store.
    method Send(b: Bench, table: Table, room: string, text: string, net: Network, owner: OwnerCheck, nowMs: int,
                signs: bool, accepted: bool, reply: PostReply, ghost t: Truth)
      returns (i: nat, report: Report, ghost ws: seq<World>, ghost es: seq<Event>)
      requires Valid() && Serves(net, t, world, room)
      modifies this
      ensures Valid() && IsPath(b, ws, es) && ws[0] == old(world) && ws[|ws| - 1] == world
      ensures i == |old(rows)| && ScanDone(b, NewRow(b, table, room, text), None, net, t, report)
      // Refused: no nonce is spent and nothing is posted.
      ensures !Clears(report, owner) ==>
                rows == old(rows) + [Refused(NewRow(b, table, room, text), report, owner)]
                && counter == old(counter) && world.posts == old(world).posts
      // Cleared: a fresh nonce, and the POST when it was signed and went out.
      ensures Clears(report, owner) ==>
                var nonce := NextNonce(old(counter), nowMs);
                rows == old(rows) + [Delivered(b, NewRow(b, table, room, text), text, nonce, signs, reply)]
                && counter == Some(nonce)
                && world.posts == old(world).posts + if signs && accepted then {Post(i, room, nonce, text)} else {}
    {
      hide IsPath, Serves, ScanDone;
      i, report, ws, es := Preflight(b, table, room, text, net, owner, t);
      if Clears(report, owner) {
        ws, es := Deliver(b, i, text, nowMs, signs, accepted, reply, ws, es);
      }
    }

    // From the nonce reservation to the last audit write, of the latest attempt.
    method Deliver(b: Bench, i: nat, text: string, nowMs: int, signs: bool, accepted: bool, reply: PostReply,
                   ghost ws0: seq<World>, ghost es0: seq<Event>)
      returns (ghost ws: seq<World>, ghost es: seq<Event>)
      requires Valid() && |rows| == i + 1 && IsPath(b, ws0, es0) && ws0[|ws0| - 1] == world
      requires world.attempts[i].phase.Cleared? && world.attempts[i].text == text
      modifies this
      ensures Valid() && IsPath(b, ws, es) && ws0 <= ws && ws[|ws| - 1] == world
      ensures var nonce := NextNonce(old(counter), nowMs);
              counter == Some(nonce)
              && rows == old(rows)[i := Delivered(b, old(rows)[i], text, nonce, signs, reply)]
              && world.posts == old(world).posts
                                + if signs && accepted then {Post(i, old(rows)[i].room, nonce, text)} else {}
    {
      hide IsPath, ClassifyTransport, Answered;
      var nonce := NextPostNonce(nowMs);
      var c := Conclusion(reply, b.did, text, nonce);
      if !signs {
        Update(i, Audit(Failed, None, Some("signing_failure")), None, Some(nonce));
      } else {
        Update(i, c.0, c.1, Some(nonce));
      }
      world, ws, es := DeliverPath(b, world, i, nowMs, signs, accepted, reply, ws0, es0);
    }

    // reconcile_post and reconcile_result_delivery, run without interference.
    method ReconcileAttempt(b: Bench, i: nat, net: Network, ghost t: Truth)
      returns (r: Result<Report, Refusal>, ghost ws: seq<World>, ghost es: seq<Event>)
      requires Valid() && (i < |rows| && MayReconcile(b, rows[i]) ==> Serves(net, t, world, rows[i].room))
      modifies this
      ensures Valid() && IsPath(b, ws, es) && ws[0] == old(world) && ws[|ws| - 1] == world
      // The refusals, in the order of the source.
      ensures r == Err(UnknownAttempt) <==> i >= |old(rows)|
      ensures r == Err(WrongRoom) <==> i < |old(rows)| && !RightRoom(old(rows)[i])
      ensures r == Err(ForeignDid) <==> i < |old(rows)| && RightRoom(old(rows)[i]) && old(rows)[i].did != b.did
      ensures r == Err(MissingNonce) <==>
                i < |old(rows)| && RightRoom(old(rows)[i]) && old(rows)[i].did == b.did && old(rows)[i].nonce.None?
      ensures r.Err? ==> rows == old(rows) && world == old(world)
      ensures counter == old(counter) && |rows| == |old(rows)|
      ensures r.Ok? ==>
                ScanDone(b, old(rows)[i], old(rows)[i].nonce, net, t, r.value)
                && rows == old(rows)[i := old(rows)[i].(
                     audit := PostTransition(old(rows)[i].audit, ObservationOf(r.value, old(rows)[i].audit)).audit)]
      // A match confirms the row; a complete scan finds one exactly when the room holds this attempt's message.
      ensures r.Ok? && r.value.tally.attemptSeq.Some? ==>
                rows[i].audit == Audit(ReconciledPosted, r.value.tally.attemptSeq, None)
      ensures r.Ok? && r.value.complete ==>
                (r.value.tally.attemptSeq.Some? <==> HoldsMatch(b, old(world).log, old(rows)[i]))
      // An incomplete scan confirms the row too, when the message stands within the pages that it read.
      ensures r.Ok? && MatchWithin(b, old(rows)[i], t, r.value.pages) ==> rows[i].audit.status == ReconciledPosted
    {
      hide Scanned, ScanDone, Describes, Serves, IsPath, SeenPartOf, SeenAllOf, HoldsMatch, TransitionFor, SeenAll,
           MatchWithin;
      ghost var w := world;
      ws, es := [w], [];
      StartPath(b, w);
      if i >= |rows| {
        r := Err(UnknownAttempt);
        return;
      }
      var snapshot := rows[i];
      if snapshot.table == PostAttempts && snapshot.room != Preimage.CANONICAL_ROOM {
        r := Err(WrongRoom);
        return;
      }
      if snapshot.table == ResultDeliveries && !Preimage.IsMailboxRoom(snapshot.room) {
        r := Err(WrongRoom);
        return;
      }
      if snapshot.did != b.did {
        r := Err(ForeignDid);
        return;
      }
      if snapshot.nonce.None? {
        r := Err(MissingNonce);
        return;
      }
      var key := KeyOf(b, snapshot);
      var scan;
      ghost var seen, requests;
      scan, seen, requests := ScanRoomHistory(key, snapshot.nonce, net, HISTORY_LIMITS, t);
      var report := scan.value;
      ScanIsDone(b, snapshot, snapshot.nonce, net, t, report, seen, requests);
      ScannedParts(key, snapshot.nonce, net, HISTORY_LIMITS, t, report, seen, requests);
      SeenIsGenuine(net, t, w, snapshot.room, seen, requests);
      if report.complete {
        SearchedAll(b, net, t, w, snapshot, report, seen, requests);
        ServedInFull(b, net, t, w, snapshot.room, seen, requests);
      }
      ServesHonestly(net, t, w, snapshot.room);
      MatchIsSeen(b, snapshot, net, t, report, seen, requests);
      var change := TransitionFor(snapshot.table, snapshot.audit, ObservationOf(report, snapshot.audit));
      TransitionsWrite(snapshot.table, snapshot.audit, report);
      if change.write {
        Update(i, change.audit, snapshot.response, snapshot.nonce);
      }
      world, ws, es := ReconcilePath(b, w, i, seen, report);
      ReconciledRow(world.attempts[i], w.attempts[i], report);
      r := Ok(report);
    }
  }

  // A scan's transition writes exactly when it changes the row, and the two tables' versions agree on it.
  lemma TransitionsWrite(table: Table, current: Audit, r: Report)
    ensures var o := ObservationOf(r, current);
            var change := TransitionFor(table, current, o);
            change.audit == PostTransition(current, o).audit && (change.write <==> change.audit != current)
    ensures r.tally.attemptSeq.Some? ==>
              PostTransition(current, ObservationOf(r, current)).audit
              == Audit(ReconciledPosted, r.tally.attemptSeq, None)
  {
    ScansAgree(r, current);
    PostWritesIffChanged(current, ObservationOf(r, current));
  }

  lemma ReconciledRow(a': Attempt, a: Attempt, r: Report)
    requires a' == Reconciled(a, a.row, r)
    ensures a'.row == a.row.(audit := PostTransition(a.row.audit, ObservationOf(r, a.row.audit)).audit)
  {
    TransitionsWrite(a.row.table, a.row.audit, r);
    hide TransitionFor;
  }

  // The two steps of an undisturbed beginning.
  lemma BeginPath(b: Bench, w: World, table: Table, room: string, text: string, seen: seq<Message>)
    returns (w': World, ws: seq<World>, es: seq<Event>)
    requires Genuine(w.log, room, seen)
    ensures var a := Attempt(NewRow(b, table, room, text), text, Scanning(seen));
            w' == w.(attempts := w.attempts + [a])
    ensures IsPath(b, ws, es) && |ws| == 3 && ws[0] == w && ws[1].log == w.log && ws[2] == w'
    ensures |es| == 2 && es[1] == ReadHistory(|w.attempts|, seen)
  {
    hide Genuine, IsPath;
    var i := |w.attempts|;
    var a := Attempt(NewRow(b, table, room, text), text, Scanning([]));
    var w1 := w.(attempts := w.attempts + [a]);
    assert a.phase.seen + seen == seen;
    w' := SetAttempt(w1, i, a.(phase := Scanning(seen)));
    StartPath(b, w);
    PathStep(b, [w], [], Begin(table, room, text), w1);
    PathStep(b, [w] + [w1], [] + [Begin(table, room, text)], ReadHistory(i, seen), w');
    ws, es := [w] + [w1] + [w'], [] + [Begin(table, room, text)] + [ReadHistory(i, seen)];
  }

  // The row's room holds a message with its DID, digest and nonce.
  ghost predicate HoldsMatch(b: Bench, log: seq<Entry>, row: Row) {
    exists x | x in log :: x.room == row.room && Hit(x.message, KeyOf(b, row), row.nonce, SameNonce)
  }

  // The row's message is among the entries of the first pages.
  ghost predicate MatchWithin(b: Bench, row: Row, t: Truth, pages: nat) {
    exists n: nat :: n < pages * HISTORY_LIMITS.pageLimit && n < |t.logs(0)|
                     && Hit(Canonical(t.logs(0)[n]), KeyOf(b, row), row.nonce, SameNonce)
  }

  lemma ServesHonestly(net: Network, t: Truth, w: World, room: string)
    requires Serves(net, t, w, room)
    ensures IsHonest(net, HISTORY_LIMITS, t)
  {
    hide IsHonest, IsRoom;
  }

  lemma MatchIsSeen(b: Bench, row: Row, net: Network, t: Truth, r: Report, seen: seq<Message>, requests: nat)
    requires Scanned(KeyOf(b, row), row.nonce, net, HISTORY_LIMITS, t, r, seen, requests)
    requires IsHonest(net, HISTORY_LIMITS, t)
    ensures MatchWithin(b, row, t, r.pages) ==> r.tally.attemptSeq.Some?
  {
    hide Scanned, IsHonest, Hit;
    if n: nat :| n < r.pages * HISTORY_LIMITS.pageLimit && n < |t.logs(0)|
                 && Hit(Canonical(t.logs(0)[n]), KeyOf(b, row), row.nonce, SameNonce) {
      FrontIsRead(KeyOf(b, row), row.nonce, net, HISTORY_LIMITS, t, r, seen, requests, n);
    }
  }

  lemma ScanIsDone(b: Bench, row: Row, attempt: Option<int>, net: Network, t: Truth, r: Report, seen: seq<Message>,
                   requests: nat)
    requires Scanned(KeyOf(b, row), attempt, net, HISTORY_LIMITS, t, r, seen, requests)
    ensures ScanDone(b, row, attempt, net, t, r)
  {
    hide Scanned;
  }

  // A complete scan of the room finds the attempt's message exactly when the room holds it.
  lemma SearchedAll(b: Bench, net: Network, t: Truth, w: World, row: Row, r: Report, seen: seq<Message>, k: nat)
    requires Serves(net, t, w, row.room) && SeenAllOf(net.server, HISTORY_LIMITS.pageLimit, t.logs, seen, k)
    requires Describes(r.tally, seen, KeyOf(b, row), row.nonce)
    ensures r.tally.attemptSeq.Some? <==> HoldsMatch(b, w.log, row)
  {
    hide Honest, Hit;
    assert k > 0 && seen == CanonicalAll(t.logs(k - 1));
    assert IsRoom(t.logs(k - 1), w.log, row.room);
    if r.tally.attemptSeq.Some? {
      var m :| m in seen && Hit(m, KeyOf(b, row), row.nonce, SameNonce);
      assert InRoom(w.log, row.room, m);
    }
  }

  lemma StartPath(b: Bench, w: World)
    ensures IsPath(b, [w], [])
  {
  }

  // A preflight that clears, behind the complete scan of its path.
  lemma ClearPath(b: Bench, w: World, i: nat, t: Tally, ws0: seq<World>, es0: seq<Event>)
    returns (w': World, ws: seq<World>, es: seq<Event>)
    requires IsPath(b, ws0, es0) && ws0[|ws0| - 1] == w && |w.attempts| == i + 1
    requires w.attempts[i].phase.Scanning? && t.exactSeq.None?
    requires Describes(t, w.attempts[i].phase.seen, KeyOf(b, w.attempts[i].row), None)
    requires |es0| == 2 && es0[1].ReadHistory? && es0[1].i == i && ws0[1].log == w.log
    requires SeenAll(b, w.log, w.attempts[i].row.room, w.attempts[i].phase.seen)
    ensures w' == SetAttempt(w, i, w.attempts[i].(phase := Cleared))
    ensures IsPath(b, ws, es) && ws == ws0 + [w'] && es == es0 + [ClearPreflight(i, t)]
  {
    w' := SetAttempt(w, i, w.attempts[i].(phase := Cleared));
    ws, es := ws0 + [w'], es0 + [ClearPreflight(i, t)];
    assert ws[1] == ws0[1] && ws[2] == w && es[1] == es0[1];
    assert ScannedAt(b, ws, es, i, 1, 2);
    PathStep(b, ws0, es0, ClearPreflight(i, t), w');
  }

  // The path of one operation carries a serial run with complete scans on: runs made of such operations are the
  // runs of which SerialDelivery shows that they repeat no text.
  lemma PathExtendsRun(b: Bench, base: nat, ws: seq<World>, es: seq<Event>, ws': seq<World>, es': seq<Event>)
    requires IsRun(b, base, ws, es) && IsOrderly(b, ws, es)
    requires IsPath(b, ws', es') && ws'[0] == ws[|ws| - 1]
    ensures var all, events := ws + ws'[1..], es + es';
            IsRun(b, base, all, events) && IsOrderly(b, all, events)
  {
    StepsJoin(b, base, ws, es, ws', es');
    ScansJoin(b, ws, es, ws', es');
    ReadsJoin(b, ws, es, ws', es');
    hide IsRun, IsSerial, SerialWrites, CompleteScans, CompleteReads;
  }

  lemma StepsJoin(b: Bench, base: nat, ws: seq<World>, es: seq<Event>, ws': seq<World>, es': seq<Event>)
    requires IsRun(b, base, ws, es) && IsOrderly(b, ws, es) && IsPath(b, ws', es') && ws'[0] == ws[|ws| - 1]
    ensures IsRun(b, base, ws + ws'[1..], es + es') && IsSerial(ws + ws'[1..], es + es')
    ensures SerialWrites(ws + ws'[1..], es + es')
  {
    hide Next, Init, CompleteScans, CompleteReads, SerialStep, SerialWrite;
    var all, events, n := ws + ws'[1..], es + es', |es|;
    forall k | 0 <= k < |events|
      ensures Next(b, all[k], events[k], all[k + 1]) && SerialStep(all[k], events[k]) && SerialWrite(all[k], events[k])
    {
      if k < n {
        assert all[k] == ws[k] && all[k + 1] == ws[k + 1] && events[k] == es[k];
      } else {
        assert all[k] == ws'[k - n] && all[k + 1] == ws'[k - n + 1] && events[k] == es'[k - n];
      }
    }
  }

  lemma ScansJoin(b: Bench, ws: seq<World>, es: seq<Event>, ws': seq<World>, es': seq<Event>)
    requires |ws| == |es| + 1 && |ws'| == |es'| + 1 && ws'[0] == ws[|ws| - 1]
    requires CompleteScans(b, ws, es) && CompleteScans(b, ws', es')
    ensures CompleteScans(b, ws + ws'[1..], es + es')
  {
    hide ScannedAt;
    var all, events, n := ws + ws'[1..], es + es', |es|;
    forall c: nat | c < |events| && events[c].ClearPreflight?
      ensures exists r: nat :: ScannedAt(b, all, events, events[c].i, r, c)
    {
      if c < n {
        var r: nat :| ScannedAt(b, ws, es, es[c].i, r, c);
        ScannedLater(b, ws, es, all, events, es[c].i, r, c);
      } else {
        assert es'[c - n] == events[c];
        var r: nat :| ScannedAt(b, ws', es', es'[c - n].i, r, c - n);
        ScannedShifted(b, ws, es, ws', es', events[c].i, r, c - n);
      }
    }
  }

  lemma ReadsJoin(b: Bench, ws: seq<World>, es: seq<Event>, ws': seq<World>, es': seq<Event>)
    requires |ws| == |es| + 1 && |ws'| == |es'| + 1 && ws'[0] == ws[|ws| - 1]
    requires CompleteReads(b, ws, es) && CompleteReads(b, ws', es')
    ensures CompleteReads(b, ws + ws'[1..], es + es')
  {
    hide ReadAt;
    var all, events, n := ws + ws'[1..], es + es', |es|;
    forall k: nat | k < |events| && events[k].Reconcile? && events[k].report.complete
      ensures exists l: nat :: ReadAt(b, all, events, l, k)
    {
      if k < n {
        assert es[k] == events[k];
        var l: nat :| ReadAt(b, ws, es, l, k);
        ReadLater(b, ws, es, all, events, l, k);
      } else {
        assert es'[k - n] == events[k];
        var l: nat :| ReadAt(b, ws', es', l, k - n);
        ReadShifted(b, ws, es, ws', es', l, k - n);
      }
    }
  }

  lemma ReadShifted(b: Bench, ws: seq<World>, es: seq<Event>, ws': seq<World>, es': seq<Event>, l: nat, k: nat)
    requires |ws| == |es| + 1 && |ws'| == |es'| + 1 && ws'[0] == ws[|ws| - 1] && ReadAt(b, ws', es', l, k)
    ensures ReadAt(b, ws + ws'[1..], es + es', |es| + l, |es| + k)
  {
    var all, events, n := ws + ws'[1..], es + es', |es|;
    assert all[n + l] == ws'[l] && all[n + k] == ws'[k] && events[n + l] == es'[l] && events[n + k] == es'[k];
  }

  lemma ScannedShifted(b: Bench, ws: seq<World>, es: seq<Event>, ws': seq<World>, es': seq<Event>,
                       i: nat, r: nat, c: nat)
    requires |ws| == |es| + 1 && |ws'| == |es'| + 1 && ws'[0] == ws[|ws| - 1] && ScannedAt(b, ws', es', i, r, c)
    ensures ScannedAt(b, ws + ws'[1..], es + es', i, |es| + r, |es| + c)
  {
    var all, events, n := ws + ws'[1..], es + es', |es|;
    assert all[n + r] == ws'[r] && all[n + c] == ws'[c] && events[n + r] == es'[r] && events[n + c] == es'[c];
  }

  lemma FindEnabled(b: Bench, w: World, i: nat, t: Tally)
    requires i < |w.attempts| && w.attempts[i].phase.Scanning? && t.exactSeq.Some?
    requires Describes(t, w.attempts[i].phase.seen, KeyOf(b, w.attempts[i].row), None)
    ensures Next(b, w, FindDuplicate(i, t), SetAttempt(w, i,
              Finish(w.attempts[i], Audit(AlreadyPosted, t.exactSeq, None), None, None)))
  {
  }

  lemma StopEnabled(b: Bench, w: World, i: nat, response: Option<int>, failure: string)
    requires i < |w.attempts| && (w.attempts[i].phase.Scanning? || w.attempts[i].phase.Cleared?)
    ensures Next(b, w, StopPreflight(i, response, failure), SetAttempt(w, i,
              Finish(w.attempts[i], Audit(FailedPreflight, None, Some(failure)), response, None)))
  {
  }

  lemma SignEnabled(b: Bench, w: World, i: nat, ok: bool)
    requires i < |w.attempts| && w.attempts[i].phase.Reserved?
    ensures var a := w.attempts[i];
            Next(b, w, Sign(i, ok), SetAttempt(w, i,
              if ok then a.(phase := Signed(a.phase.nonce))
              else Finish(a, Audit(Failed, None, Some("signing_failure")), None, Some(a.phase.nonce))))
  {
  }

  lemma TransmitEnabled(b: Bench, w: World, i: nat, accepted: bool)
    requires i < |w.attempts| && w.attempts[i].phase.Signed?
    ensures var a := w.attempts[i];
            Next(b, w, Transmit(i, accepted), SetAttempt(w, i, a.(phase := Sent(a.phase.nonce)))
              .(posts := if accepted then w.posts + {Post(i, a.row.room, a.phase.nonce, a.text)} else w.posts))
  {
  }

  lemma ConcludeEnabled(b: Bench, w: World, i: nat, reply: PostReply)
    requires i < |w.attempts| && w.attempts[i].phase.Sent?
    ensures var a := w.attempts[i];
            var c := Conclusion(reply, b.did, a.text, a.phase.nonce);
            Next(b, w, Conclude(i, reply), SetAttempt(w, i, Finish(a, c.0, c.1, Some(a.phase.nonce))))
  {
  }

  // The steps of an undisturbed delivery of the latest attempt from the nonce reservation on.
  lemma DeliverPath(b: Bench, w: World, i: nat, nowMs: int, signs: bool, accepted: bool, reply: PostReply,
                    ws0: seq<World>, es0: seq<Event>)
    returns (w': World, ws: seq<World>, es: seq<Event>)
    requires |w.attempts| == i + 1 && w.attempts[i].phase.Cleared?
    requires IsPath(b, ws0, es0) && ws0[|ws0| - 1] == w
    ensures IsPath(b, ws, es) && ws0 <= ws && ws[|ws| - 1] == w'
    ensures var n := NextNonce(w.counter, nowMs); var a := w.attempts[i];
            var c := Conclusion(reply, b.did, a.text, n);
            w'.counter == Some(n)
            && w'.attempts == w.attempts[i :=
                 if signs then Finish(a, c.0, c.1, Some(n))
                 else Finish(a, Audit(Failed, None, Some("signing_failure")), None, Some(n))]
            && w'.posts == w.posts + if signs && accepted then {Post(i, a.row.room, n, a.text)} else {}
  {
    hide IsPath, Conclusion;
    var n, a := NextNonce(w.counter, nowMs), w.attempts[i];
    var c := Conclusion(reply, b.did, a.text, n);
    var w1 := SetAttempt(w, i, a.(phase := Reserved(n))).(counter := Some(n));
    PathStep(b, ws0, es0, ReserveNonce(i, nowMs), w1);
    ws, es := ws0 + [w1], es0 + [ReserveNonce(i, nowMs)];
    SignEnabled(b, w1, i, signs);
    if !signs {
      w' := SetAttempt(w1, i, Finish(w1.attempts[i], Audit(Failed, None, Some("signing_failure")), None, Some(n)));
      PathStep(b, ws, es, Sign(i, false), w');
      ws, es := ws + [w'], es + [Sign(i, false)];
    } else {
      w', ws, es := PostPath(b, w1, i, n, accepted, reply, ws, es);
    }
  }

  // Signature, transmission and last write.
  lemma PostPath(b: Bench, w1: World, i: nat, n: int, accepted: bool, reply: PostReply,
                 ws0: seq<World>, es0: seq<Event>)
    returns (w': World, ws: seq<World>, es: seq<Event>)
    requires |w1.attempts| == i + 1 && w1.attempts[i].phase == Reserved(n)
    requires IsPath(b, ws0, es0) && ws0[|ws0| - 1] == w1
    ensures IsPath(b, ws, es) && ws0 <= ws && ws[|ws| - 1] == w'
    ensures var a := w1.attempts[i];
            var c := Conclusion(reply, b.did, a.text, n);
            w'.counter == w1.counter && w'.attempts == w1.attempts[i := Finish(a, c.0, c.1, Some(n))]
            && w'.posts == w1.posts + if accepted then {Post(i, a.row.room, n, a.text)} else {}
  {
    hide IsPath, Conclusion, Next;
    var a := w1.attempts[i];
    var c := Conclusion(reply, b.did, a.text, n);
    SignEnabled(b, w1, i, true);
    var w2 := SetAttempt(w1, i, a.(phase := Signed(n)));
    PathStep(b, ws0, es0, Sign(i, true), w2);
    ws, es := ws0 + [w2], es0 + [Sign(i, true)];
    TransmitEnabled(b, w2, i, accepted);
    var w3 := SetAttempt(w2, i, w2.attempts[i].(phase := Sent(n)))
              .(posts := if accepted then w2.posts + {Post(i, a.row.room, n, a.text)} else w2.posts);
    PathStep(b, ws, es, Transmit(i, accepted), w3);
    ws, es := ws + [w3], es + [Transmit(i, accepted)];
    ConcludeEnabled(b, w3, i, reply);
    w' := SetAttempt(w3, i, Finish(w3.attempts[i], c.0, c.1, Some(n)));
    PathStep(b, ws, es, Conclude(i, reply), w');
    ws, es := ws + [w'], es + [Conclude(i, reply)];
  }

  // The three steps of an undisturbed reconciliation.
  lemma ReconcilePath(b: Bench, w: World, i: nat, seen: seq<Message>, report: Report)
    returns (w': World, ws: seq<World>, es: seq<Event>)
    requires i < |w.attempts| && w.attempts[i].row.nonce.Some?
    requires Genuine(w.log, w.attempts[i].row.room, seen)
    requires Describes(report.tally, seen, KeyOf(b, w.attempts[i].row), w.attempts[i].row.nonce)
    requires report.complete ==> SeenAll(b, w.log, w.attempts[i].row.room, seen)
    ensures IsPath(b, ws, es) && ws[0] == w && ws[|ws| - 1] == w'
    ensures w'.counter == w.counter && |w'.attempts| == |w.attempts|
    ensures w'.attempts == w.attempts[i := Reconciled(w.attempts[i], w.attempts[i].row, report)]
  {
    hide Describes, Genuine;
    var r := |w.recs|;
    var rec := Reconciliation(i, w.attempts[i].row, [], true);
    var w1 := w.(recs := w.recs + [rec]);
    var w2 := w1.(recs := w1.recs[r := rec.(seen := rec.seen + seen)]);
    assert rec.seen + seen == seen;
    w' := SetAttempt(w2, i, Reconciled(w.attempts[i], w.attempts[i].row, report))
          .(recs := w2.recs[r := w2.recs[r].(live := false)]);
    StartPath(b, w);
    PathStep(b, [w], [], BeginReconcile(i), w1);
    PathStep(b, [w] + [w1], [] + [BeginReconcile(i)], ReadForReconcile(r, seen), w2);
    ws := [w] + [w1] + [w2] + [w'];
    es := [] + [BeginReconcile(i)] + [ReadForReconcile(r, seen)] + [Event.Reconcile(r, report)];
    if report.complete {
      assert ReadAt(b, ws, es, 1, 2);
    }
    PathStep(b, [w] + [w1] + [w2], [] + [BeginReconcile(i)] + [ReadForReconcile(r, seen)],
             Event.Reconcile(r, report), w');
  }
}
