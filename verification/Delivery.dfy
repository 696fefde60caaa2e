// Signed delivery and reconciliation as an interleaving of atomic steps
// (src/flop_bench/posting.py, execution.py, and the nonce allocator of state.py).
module Delivery {
  import opened Common
  import opened Paging
  import opened RoomLog
  import opened HistoryScan
  import opened Reconcile

  // The agent: its DID and the digest of message texts.
  datatype Bench = Bench(did: string, hash: string -> string)

  datatype Table = PostAttempts | ResultDeliveries

  datatype Row = Row(
    table: Table, room: string, did: string, digest: string,
    audit: Audit, response: Option<int>, nonce: Option<int>)

  // Where a send stands. A process that crashes stays in its phase for ever.
  datatype Phase =
    | Scanning(seen: seq<Message>) | Cleared | Reserved(nonce: int) | Signed(nonce: int) | Sent(nonce: int)
    | Done(used: Option<int>)

  // One send and the audit row it inserted; rows of both tables share one numbering here.
  datatype Attempt = Attempt(row: Row, text: string, phase: Phase)

  datatype Origin = Outsider | Legacy | FromAttempt(id: nat)

  datatype Entry = Entry(room: string, message: Message, origin: Origin)

  datatype Post = Post(attempt: nat, room: string, nonce: int, text: string)

  // A reconciliation between the read of its row and the write.
  datatype Reconciliation = Reconciliation(attempt: nat, snapshot: Row, seen: seq<Message>, live: bool)

  datatype World = World(
    counter: Option<int>, attempts: seq<Attempt>, recs: seq<Reconciliation>,
    posts: set<Post>, log: seq<Entry>)

  // The record that a reply says was posted; `number` is its "seq" where that is an integer.
  datatype PostedRecord = PostedRecord(
    sender: Option<string>, text: Option<string>, nonce: NonceField, number: Option<int>)

  datatype PostBody = NotJson | WithoutRecord | WithRecord(record: PostedRecord)

  // What a POST came back with: a classified failure without response, a fault of the client, or a response.
  datatype PostReply =
    | NoReply(classification: string)
    | LocalFault
    | HttpReply(redirected: bool, size: nat, status: int, body: PostBody)

  datatype Event =
    | Begin(table: Table, room: string, text: string)
    | ReadHistory(i: nat, page: seq<Message>)
    | StopPreflight(i: nat, response: Option<int>, failure: string)
    | FindDuplicate(i: nat, tally: Tally)
    | ClearPreflight(i: nat, tally: Tally)
    | ReserveNonce(i: nat, nowMs: int)
    | Sign(i: nat, ok: bool)
    | Transmit(i: nat, accepted: bool)
    | Conclude(i: nat, reply: PostReply)
    | Apply(post: Post, number: int)
    | Foreign(entry: Entry)
    | BeginReconcile(i: nat)
    | ReadForReconcile(r: nat, page: seq<Message>)
    | Reconcile(r: nat, report: Report)

  // state.next_post_nonce
  function NextNonce(stored: Option<int>, nowMs: int): (n: int)
    ensures n > Last(stored) && n >= nowMs && (n == Last(stored) + 1 || n == nowMs)
  {
    if nowMs > Last(stored) + 1 then nowMs else Last(stored) + 1
  }

  function Last(stored: Option<int>): int {
    if stored.Some? then stored.value else 0
  }

  // posting.classify_post_transport_failure
  function ClassifyTransport(c: string): (Status, string) {
    if c in ["dns_failure", "tls_failure", "connect_failure", "connect_timeout"] then (FailedPreTransmission, c)
    else if c in ["read_timeout", "connection_reset", "broken_pipe", "timeout", "timeout_unknown_phase",
                  "connectivity_failure", "transport_failure"]
    then (UnknownOutcome, "post_outcome_unknown_" + c)
    else (ConfirmedRejected, c)
  }

  // posting.posted_record_matches
  predicate RecordMatches(r: PostedRecord, did: string, text: string, nonce: int) {
    r.sender == Some(did) && r.text == Some(text) && r.nonce == IntegerNonce(nonce)
    && r.number.Some? && r.number.value > 0
  }

  // The audit columns written after a response.
  function Answered(redirected: bool, size: nat, status: int, body: PostBody, did: string, text: string, nonce: int)
    : Audit
  {
    if redirected then Audit(ConfirmedRejected, None, Some("redirect_rejected"))
    else if size > MAX_RESPONSE_BYTES then Audit(ConfirmedRejected, None, Some("oversized_response"))
    else if status != 200 then Audit(ConfirmedRejected, None, Some(ClassifyStatus(status)))
    else
      match body
      case NotJson => Audit(Failed, None, Some("malformed_response"))
      case WithoutRecord => Audit(Failed, None, Some("malformed_response"))
      case WithRecord(r) =>
        if RecordMatches(r, did, text, nonce) then Audit(Posted, r.number, None)
        else Audit(Failed, r.number, Some("unverifiable_post"))
  }

  // The audit columns and the response status written after a POST.
  function Conclusion(reply: PostReply, did: string, text: string, nonce: int): (r: (Audit, Option<int>))
    ensures r.0.status != ReconciledPosted
  {
    match reply
    case NoReply(c) => (Audit(ClassifyTransport(c).0, None, Some(ClassifyTransport(c).1)), None)
    case LocalFault => (Audit(Failed, None, Some("unexpected_local_failure")), None)
    case HttpReply(redirected, size, status, body) =>
      (Answered(redirected, size, status, body, did, text, nonce), Some(status))
  }

  function NonceOf(p: Phase): Option<int> {
    match p
    case Scanning(_) => None
    case Cleared => None
    case Reserved(n) => Some(n)
    case Signed(n) => Some(n)
    case Sent(n) => Some(n)
    case Done(used) => used
  }

  function NewRow(b: Bench, table: Table, room: string, text: string): Row {
    Row(table, room, b.did, b.hash(text), Audit(Started, None, None), None, None)
  }

  function Finish(a: Attempt, audit: Audit, response: Option<int>, used: Option<int>): Attempt {
    a.(row := a.row.(audit := audit, response := response, nonce := used), phase := Done(used))
  }

  function SetAttempt(w: World, i: nat, a: Attempt): World
    requires i < |w.attempts|
  {
    w.(attempts := w.attempts[i := a])
  }

  function KeyOf(b: Bench, row: Row): Key {
    Key(row.did, row.digest, b.hash)
  }

  // Every message of the page stands in the room's log; the server may omit, repeat or reorder entries.
  ghost predicate Genuine(log: seq<Entry>, room: string, page: seq<Message>) {
    forall m | m in page :: InRoom(log, room, m)
  }

  ghost predicate InRoom(log: seq<Entry>, room: string, m: Message) {
    exists e | e in log :: e.room == room && e.message == m
  }

  // The step of attempt i = e.i, from a to the state after it; None when the event is not enabled.
  ghost function SenderStep(b: Bench, w: World, a: Attempt, e: Event): Option<World>
    requires Sends(e) && e.i < |w.attempts| && a == w.attempts[e.i]
  {
    match e
    case ReadHistory(i, page) =>
      if a.phase.Scanning? && Genuine(w.log, a.row.room, page)
      then Some(SetAttempt(w, i, a.(phase := Scanning(a.phase.seen + page)))) else None
    case StopPreflight(i, response, failure) =>
      if a.phase.Scanning? || a.phase.Cleared?
      then Some(SetAttempt(w, i, Finish(a, Audit(FailedPreflight, None, Some(failure)), response, None))) else None
    case FindDuplicate(i, t) =>
      if a.phase.Scanning? && Describes(t, a.phase.seen, KeyOf(b, a.row), None) && t.exactSeq.Some?
      then Some(SetAttempt(w, i, Finish(a, Audit(AlreadyPosted, t.exactSeq, None), None, None))) else None
    case ClearPreflight(i, t) =>
      if a.phase.Scanning? && Describes(t, a.phase.seen, KeyOf(b, a.row), None) && t.exactSeq.None?
      then Some(SetAttempt(w, i, a.(phase := Cleared))) else None
    case ReserveNonce(i, nowMs) =>
      if a.phase.Cleared? then
        var n := NextNonce(w.counter, nowMs);
        Some(SetAttempt(w, i, a.(phase := Reserved(n))).(counter := Some(n)))
      else None
    case Sign(i, ok) =>
      if a.phase.Reserved? then
        Some(SetAttempt(w, i,
          if ok then a.(phase := Signed(a.phase.nonce))
          else Finish(a, Audit(Failed, None, Some("signing_failure")), None, Some(a.phase.nonce))))
      else None
    case Transmit(i, accepted) =>
      if a.phase.Signed? then
        var post := Post(i, a.row.room, a.phase.nonce, a.text);
        Some(SetAttempt(w, i, a.(phase := Sent(a.phase.nonce)))
             .(posts := if accepted then w.posts + {post} else w.posts))
      else None
    case Conclude(i, reply) =>
      if a.phase.Sent? then
        var conclusion := Conclusion(reply, b.did, a.text, a.phase.nonce);
        Some(SetAttempt(w, i, Finish(a, conclusion.0, conclusion.1, Some(a.phase.nonce))))
      else None
  }

  predicate Sends(e: Event) {
    e.ReadHistory? || e.StopPreflight? || e.FindDuplicate? || e.ClearPreflight? || e.ReserveNonce?
    || e.Sign? || e.Transmit? || e.Conclude?
  }

  function AppliedMessage(b: Bench, p: Post, number: int): Message {
    Message(Some(number), b.did, ReadNonce(IntegerNonce(p.nonce)), Some(p.text))
  }

  // The record read as a message of the room.
  function AsMessage(r: PostedRecord): Message {
    Canonical(Raw(r.number, r.sender, r.nonce, r.text))
  }

  // A row reads posted exactly when a direct 200 of allowed size carried a record that is, message for message, the
  // entry the POST would leave in the room: what the send accepts at once is what a later reconciliation would match.
  lemma PostedIffOwnEntry(b: Bench, p: Post, reply: PostReply)
    requires 0 < p.nonce <= MAX_NONCE
    ensures var audit := Conclusion(reply, b.did, p.text, p.nonce).0;
            audit.status == Posted <==>
              reply.HttpReply? && !reply.redirected && reply.size <= MAX_RESPONSE_BYTES && reply.status == 200
              && reply.body.WithRecord? && reply.body.record.sender.Some? && audit.number.Some?
              && audit.number.value > 0
              && AsMessage(reply.body.record) == AppliedMessage(b, p, audit.number.value)
    ensures var audit := Conclusion(reply, b.did, p.text, p.nonce).0;
            audit.status == Posted ==>
              Hit(AsMessage(reply.body.record), Key(b.did, b.hash(p.text), b.hash), Some(p.nonce), SameNonce)
  {
  }

  // The failures of a connection that never carried the request.
  predicate NeverSent(failure: string) {
    failure == "dns_failure" || failure == "tls_failure" || failure == "connect_failure" || failure == "connect_timeout"
  }

  // The failures after which the request may have arrived.
  predicate MayHaveArrived(failure: string) {
    failure == "read_timeout" || failure == "connection_reset" || failure == "broken_pipe" || failure == "timeout"
    || failure == "timeout_unknown_phase" || failure == "connectivity_failure" || failure == "transport_failure"
  }

  // What a failure without response does to the row: three classes, told apart by their names.
  lemma LostReplyCases(c: string, did: string, text: string, nonce: int)
    ensures var r := Conclusion(NoReply(c), did, text, nonce);
            r.1.None? && r.0.number.None?
            && (r.0.status == FailedPreTransmission <==> NeverSent(c))
            && (r.0.status == UnknownOutcome <==> MayHaveArrived(c))
            && (r.0.status == ConfirmedRejected <==> !NeverSent(c) && !MayHaveArrived(c))
            && r.0.failure == Some(if MayHaveArrived(c) then "post_outcome_unknown_" + c else c)
  {
  }

  // What a response does to it: the statuses by the response, and the failure of every rejection.
  lemma ResponseCases(reply: PostReply, did: string, text: string, nonce: int)
    requires reply.HttpReply?
    ensures var r := Conclusion(reply, did, text, nonce);
            var answers := !reply.redirected && reply.size <= MAX_RESPONSE_BYTES && reply.status == 200;
            r.1 == Some(reply.status)
            && (r.0.status == ConfirmedRejected <==> !answers)
            && (r.0.status == Failed <==> answers && r.0.failure.Some?)
            && (r.0.status == Posted <==> answers && r.0.failure.None?)
            && (r.0.failure == Some("redirect_rejected") <==> reply.redirected)
            && (r.0.failure == Some("oversized_response") <==> !reply.redirected && reply.size > MAX_RESPONSE_BYTES)
            && (r.0.failure == Some("malformed_response") <==> answers && !reply.body.WithRecord?)
            && (r.0.failure == Some("unverifiable_post") <==>
                  answers && reply.body.WithRecord? && !RecordMatches(reply.body.record, did, text, nonce))
            && (answers && reply.body.WithRecord? ==> r.0.number == reply.body.record.number)
            && (!answers || !reply.body.WithRecord? ==> r.0.number.None?)
  {
    StatusClasses(reply.status);
  }

  ghost predicate Next(b: Bench, w: World, e: Event, w': World) {
    match e
    case Begin(table, room, text) =>
      w' == w.(attempts := w.attempts + [Attempt(NewRow(b, table, room, text), text, Scanning([]))])
    case Apply(p, number) =>
      p in w.posts && number > 0
      && w' == w.(log := w.log + [Entry(p.room, AppliedMessage(b, p, number), FromAttempt(p.attempt))])
    case Foreign(entry) =>
      entry.message.sender != b.did && entry.origin == Outsider && w' == w.(log := w.log + [entry])
    case BeginReconcile(i) =>
      i < |w.attempts| && w.attempts[i].row.nonce.Some?
      && w' == w.(recs := w.recs + [Reconciliation(i, w.attempts[i].row, [], true)])
    case ReadForReconcile(r, page) =>
      r < |w.recs| && w.recs[r].live && Genuine(w.log, w.recs[r].snapshot.room, page)
      && w' == w.(recs := w.recs[r := w.recs[r].(seen := w.recs[r].seen + page)])
    case Reconcile(r, report) =>
      r < |w.recs| && w.recs[r].live && w.recs[r].attempt < |w.attempts|
      && Describes(report.tally, w.recs[r].seen, KeyOf(b, w.recs[r].snapshot), w.recs[r].snapshot.nonce)
      && w' == SetAttempt(w, w.recs[r].attempt, Reconciled(w.attempts[w.recs[r].attempt], w.recs[r].snapshot, report))
               .(recs := w.recs[r := w.recs[r].(live := false)])
    case _ => e.i < |w.attempts| && SenderStep(b, w, w.attempts[e.i], e) == Some(w')
  }

  // The final write of a reconciliation; both tables use their own transition.
  function TransitionFor(table: Table, current: Audit, o: Observation): Transition {
    if table == PostAttempts then PostTransition(current, o) else DeliveryTransition(current, o)
  }

  function Reconciled(a: Attempt, snapshot: Row, report: Report): Attempt {
    var t := TransitionFor(snapshot.table, snapshot.audit, ObservationOf(report, snapshot.audit));
    if t.write
    then a.(row := a.row.(audit := t.audit, response := snapshot.response, nonce := snapshot.nonce))
    else a
  }

  // A state directory and room as first used: Bench entries already in the log carry no nonce above `base`.
  ghost predicate Init(b: Bench, base: nat, w: World) {
    (w.counter == Some(base) || (w.counter.None? && base == 0))
    && w.attempts == [] && w.recs == [] && w.posts == {}
    && forall e | e in w.log :: e.message.sender == b.did ==>
         e.origin == Legacy && (e.message.nonce.None? || e.message.nonce.value <= base)
  }

  ghost predicate IsRun(b: Bench, base: nat, ws: seq<World>, es: seq<Event>) {
    |ws| == |es| + 1 && Init(b, base, ws[0])
    && forall k :: 0 <= k < |es| ==> Next(b, ws[k], es[k], ws[k + 1])
  }

  // ---- The invariant ----

  ghost predicate AttemptOk(b: Bench, a: Attempt) {
    a.row.did == b.did && a.row.digest == b.hash(a.text)
    && a.row.nonce == (if a.phase.Done? then a.phase.used else None)
    && (a.row.audit.status == ReconciledPosted ==> a.row.nonce.Some?)
  }

  ghost predicate AttemptsOk(b: Bench, w: World) {
    forall i :: 0 <= i < |w.attempts| ==> AttemptOk(b, w.attempts[i])
  }

  ghost predicate NoncesOk(base: nat, w: World) {
    Last(w.counter) >= base
    && (forall i :: 0 <= i < |w.attempts| && NonceOf(w.attempts[i].phase).Some? ==>
          base < NonceOf(w.attempts[i].phase).value <= Last(w.counter))
    && forall i, j :: 0 <= i < j < |w.attempts| && NonceOf(w.attempts[i].phase).Some? ==>
         NonceOf(w.attempts[i].phase) != NonceOf(w.attempts[j].phase)
  }

  ghost predicate SentBy(w: World, i: nat, room: string, nonce: int, text: string) {
    i < |w.attempts| && NonceOf(w.attempts[i].phase) == Some(nonce)
    && w.attempts[i].row.room == room && w.attempts[i].text == text
  }

  ghost predicate PostsOk(w: World) {
    forall p | p in w.posts :: SentBy(w, p.attempt, p.room, p.nonce, p.text)
  }

  ghost predicate EntryOk(b: Bench, base: nat, w: World, e: Entry) {
    e.message.sender == b.did ==>
      match e.origin
      case Outsider => false
      case Legacy => e.message.nonce.None? || e.message.nonce.value <= base
      case FromAttempt(i) =>
        e.message.text.Some? && i < |w.attempts| && NonceOf(w.attempts[i].phase).Some?
        && SentBy(w, i, e.room, NonceOf(w.attempts[i].phase).value, e.message.text.value)
        && e.message.nonce == ReadNonce(IntegerNonce(NonceOf(w.attempts[i].phase).value))
  }

  ghost predicate LogOk(b: Bench, base: nat, w: World) {
    forall e | e in w.log :: EntryOk(b, base, w, e)
  }

  predicate SameTarget(r: Row, r': Row) {
    r.table == r'.table && r.room == r'.room && r.did == r'.did && r.digest == r'.digest
  }

  ghost predicate RecOk(w: World, r: Reconciliation) {
    r.attempt < |w.attempts| && r.snapshot.nonce.Some?
    && r.snapshot.nonce == w.attempts[r.attempt].row.nonce
    && SameTarget(r.snapshot, w.attempts[r.attempt].row)
    && Genuine(w.log, r.snapshot.room, r.seen)
  }

  ghost predicate RecsOk(w: World) {
    forall r | r in w.recs :: RecOk(w, r)
  }

  // Row i is backed by an entry of its room that attempt i itself submitted.
  ghost predicate Backs(b: Bench, w: World, i: nat, e: Entry)
    requires i < |w.attempts|
  {
    var row := w.attempts[i].row;
    e.origin == FromAttempt(i) && e.room == row.room && e.message.sender == b.did
    && e.message.text == Some(w.attempts[i].text) && e.message.nonce == row.nonce
    && e.message.number == row.audit.number
  }

  ghost predicate Backed(b: Bench, w: World, i: nat)
    requires i < |w.attempts|
  {
    w.attempts[i].row.audit.status == ReconciledPosted ==> exists e | e in w.log :: Backs(b, w, i, e)
  }

  ghost predicate AllBacked(b: Bench, w: World) {
    forall i :: 0 <= i < |w.attempts| ==> Backed(b, w, i)
  }

  ghost predicate Inv(b: Bench, base: nat, w: World) {
    AttemptsOk(b, w) && NoncesOk(base, w) && PostsOk(w) && LogOk(b, base, w) && RecsOk(w) && AllBacked(b, w)
  }

  // What no step ever takes back.
  ghost predicate Keeps(a: Attempt, a': Attempt) {
    a'.text == a.text && SameTarget(a.row, a'.row)
    && (NonceOf(a.phase).Some? ==> NonceOf(a'.phase) == NonceOf(a.phase))
    && (a.row.nonce.Some? ==> a'.row.nonce == a.row.nonce)
  }

  ghost predicate Grows(w: World, w': World) {
    |w.attempts| <= |w'.attempts| && w.log <= w'.log
    && forall i :: 0 <= i < |w.attempts| ==> Keeps(w.attempts[i], w'.attempts[i])
  }

  // A sender changes its own attempt only, and its nonce only from nothing to a fresh one.
  lemma SenderShape(b: Bench, w: World, e: Event, w': World)
    requires AttemptsOk(b, w) && Sends(e) && Next(b, w, e, w')
    ensures w'.recs == w.recs && w'.log == w.log && |w'.attempts| == |w.attempts|
    ensures w'.attempts == w.attempts[e.i := w'.attempts[e.i]]
    ensures Keeps(w.attempts[e.i], w'.attempts[e.i]) && AttemptOk(b, w'.attempts[e.i])
    ensures (w'.counter == w.counter && NonceOf(w'.attempts[e.i].phase) == NonceOf(w.attempts[e.i].phase))
            || (w'.counter.Some? && w'.counter == NonceOf(w'.attempts[e.i].phase)
                && Last(w.counter) < w'.counter.value)
  {
    hide Describes, Genuine;
    assert AttemptOk(b, w.attempts[e.i]);
  }

  lemma ReconcileShape(b: Bench, w: World, e: Event, w': World)
    requires AttemptsOk(b, w) && RecsOk(w) && e.Reconcile? && Next(b, w, e, w')
    ensures w'.log == w.log && w'.counter == w.counter && w'.posts == w.posts
    ensures var i := w.recs[e.r].attempt;
            i < |w.attempts| && |w'.attempts| == |w.attempts|
            && w'.attempts == w.attempts[i := w'.attempts[i]]
            && Keeps(w.attempts[i], w'.attempts[i]) && AttemptOk(b, w'.attempts[i])
            && w'.attempts[i].phase == w.attempts[i].phase
  {
    hide Describes, Genuine;
    assert RecOk(w, w.recs[e.r]);
    assert AttemptOk(b, w.attempts[w.recs[e.r].attempt]);
  }

  lemma NextGrows(b: Bench, w: World, e: Event, w': World)
    requires AttemptsOk(b, w) && RecsOk(w) && Next(b, w, e, w')
    ensures Grows(w, w') && AttemptsOk(b, w')
  {
    if Sends(e) {
      SenderShape(b, w, e, w');
    } else if e.Reconcile? {
      ReconcileShape(b, w, e, w');
    }
    hide Describes, Genuine, SenderStep, AttemptOk;
    if e.Begin? {
      BeginOk(b, e.table, e.room, e.text);
    }
  }

  lemma BeginOk(b: Bench, table: Table, room: string, text: string)
    ensures AttemptOk(b, Attempt(NewRow(b, table, room, text), text, Scanning([])))
  {
  }

  lemma NextNonces(b: Bench, base: nat, w: World, e: Event, w': World)
    requires Inv(b, base, w) && Next(b, w, e, w')
    ensures NoncesOk(base, w')
  {
    if Sends(e) {
      SenderShape(b, w, e, w');
    } else if e.Reconcile? {
      ReconcileShape(b, w, e, w');
    }
    hide Describes, Genuine, SenderStep, AttemptOk, AllBacked, RecsOk, LogOk, PostsOk;
  }

  lemma NextPosts(b: Bench, base: nat, w: World, e: Event, w': World)
    requires Inv(b, base, w) && Next(b, w, e, w') && Grows(w, w')
    ensures PostsOk(w')
  {
    forall p | p in w'.posts ensures SentBy(w', p.attempt, p.room, p.nonce, p.text) {
      if p in w.posts {
        assert SentBy(w, p.attempt, p.room, p.nonce, p.text);
        assert Keeps(w.attempts[p.attempt], w'.attempts[p.attempt]);
      }
    }
  }

  lemma NextLog(b: Bench, base: nat, w: World, e: Event, w': World)
    requires Inv(b, base, w) && Next(b, w, e, w') && Grows(w, w')
    ensures LogOk(b, base, w')
  {
    forall x | x in w'.log ensures EntryOk(b, base, w', x) {
      if x in w.log {
        assert EntryOk(b, base, w, x);
        if x.message.sender == b.did && x.origin.FromAttempt? {
          assert Keeps(w.attempts[x.origin.id], w'.attempts[x.origin.id]);
        }
      } else if e.Apply? {
        assert SentBy(w, e.post.attempt, e.post.room, e.post.nonce, e.post.text);
      }
    }
  }

  lemma GenuineLater(log: seq<Entry>, log': seq<Entry>, room: string, page: seq<Message>)
    requires Genuine(log, room, page) && log <= log'
    ensures Genuine(log', room, page)
  {
    forall m | m in page ensures InRoom(log', room, m) {
      assert InRoom(log, room, m);
      var e :| e in log && e.room == room && e.message == m;
      assert e in log';
    }
  }

  lemma NextRecs(b: Bench, base: nat, w: World, e: Event, w': World)
    requires Inv(b, base, w) && Next(b, w, e, w') && Grows(w, w')
    ensures RecsOk(w')
  {
    forall r | r in w'.recs ensures RecOk(w', r) {
      if r in w.recs {
        RecLater(w, w', r);
      } else if e.ReadForReconcile? {
        RecLater(w, w', w.recs[e.r]);
        GenuineLater(w.log, w'.log, r.snapshot.room, e.page);
      } else if e.Reconcile? {
        RecLater(w, w', w.recs[e.r]);
      }
    }
  }

  lemma RecLater(w: World, w': World, r: Reconciliation)
    requires RecOk(w, r) && Grows(w, w')
    ensures RecOk(w', r)
  {
    GenuineLater(w.log, w'.log, r.snapshot.room, r.seen);
    assert Keeps(w.attempts[r.attempt], w'.attempts[r.attempt]);
  }

  // The heart of attribution: a hit on DID, digest and nonce can only be the attempt's own entry.
  lemma HitIsOwn(b: Bench, base: nat, w: World, i: nat, x: Entry)
    requires AttemptsOk(b, w) && NoncesOk(base, w) && LogOk(b, base, w)
    requires i < |w.attempts| && w.attempts[i].row.nonce.Some?
    requires x in w.log && x.message.sender == b.did && x.message.nonce == w.attempts[i].row.nonce
    ensures x.origin == FromAttempt(i) && x.room == w.attempts[i].row.room
    ensures x.message.text == Some(w.attempts[i].text)
  {
    assert AttemptOk(b, w.attempts[i]);
    assert EntryOk(b, base, w, x);
    var j := x.origin.id;
    assert NonceOf(w.attempts[j].phase) == NonceOf(w.attempts[i].phase);
    assert i == j;
  }

  lemma NextBacked(b: Bench, base: nat, w: World, e: Event, w': World)
    requires Inv(b, base, w) && Next(b, w, e, w') && Grows(w, w')
    ensures AllBacked(b, w')
  {
    forall i | 0 <= i < |w'.attempts| ensures Backed(b, w', i) {
      if i < |w.attempts| && w'.attempts[i].row == w.attempts[i].row {
        assert Backed(b, w, i);
        assert w'.attempts[i].text == w.attempts[i].text;
        if w.attempts[i].row.audit.status == ReconciledPosted {
          var x :| x in w.log && Backs(b, w, i, x);
          assert x in w'.log && Backs(b, w', i, x);
        }
      } else if e.Reconcile? {
        ReconcileBacked(b, base, w, e, w', i);
      }
    }
  }

  lemma ReconcileBacked(b: Bench, base: nat, w: World, e: Event, w': World, i: nat)
    requires Inv(b, base, w) && e.Reconcile? && Next(b, w, e, w')
    requires i == w.recs[e.r].attempt && w'.attempts[i].row != w.attempts[i].row
    ensures Backed(b, w', i)
  {
    var rec := w.recs[e.r];
    assert RecOk(w, rec) && AttemptOk(b, w.attempts[i]);
    var tally := e.report.tally;
    if w'.attempts[i].row.audit.status == ReconciledPosted {
      assert tally.attemptSeq.Some?;
      var m :| m in rec.seen && Hit(m, KeyOf(b, rec.snapshot), rec.snapshot.nonce, SameNonce)
               && m.number == tally.attemptSeq;
      assert InRoom(w.log, rec.snapshot.room, m);
      var x :| x in w.log && x.room == rec.snapshot.room && x.message == m;
      HitIsOwn(b, base, w, i, x);
      assert Backs(b, w', i, x);
    }
  }

  lemma NextInv(b: Bench, base: nat, w: World, e: Event, w': World)
    requires Inv(b, base, w) && Next(b, w, e, w')
    ensures Inv(b, base, w')
  {
    NextGrows(b, w, e, w');
    NextNonces(b, base, w, e, w');
    NextPosts(b, base, w, e, w');
    NextLog(b, base, w, e, w');
    NextRecs(b, base, w, e, w');
    NextBacked(b, base, w, e, w');
  }

  lemma {:induction false} RunInv(b: Bench, base: nat, ws: seq<World>, es: seq<Event>, k: nat)
    requires IsRun(b, base, ws, es) && k < |ws|
    ensures Inv(b, base, ws[k])
  {
    if k == 0 {
    } else {
      RunInv(b, base, ws, es, k - 1);
      NextInv(b, base, ws[k - 1], es[k - 1], ws[k]);
    }
  }

  // In every interleaving of sends, result deliveries and reconciliations, with POSTs applied late, several
  // times or never and any clock: a row reads reconciled_posted only if its room holds an entry, at the
  // recorded sequence number, that this very attempt submitted; and whatever Bench entry carries the row's
  // nonce, in any room, is that attempt's.
  lemma AttributionSound(b: Bench, base: nat, ws: seq<World>, es: seq<Event>, k: nat, i: nat)
    requires IsRun(b, base, ws, es) && k < |ws| && i < |ws[k].attempts|
    requires ws[k].attempts[i].row.audit.status == ReconciledPosted
    ensures exists x | x in ws[k].log :: Backs(b, ws[k], i, x)
    ensures forall x | x in ws[k].log ::
              x.message.sender == b.did && x.message.nonce == ws[k].attempts[i].row.nonce
              ==> x.origin == FromAttempt(i)
  {
    RunInv(b, base, ws, es, k);
    var w := ws[k];
    assert Backed(b, w, i) && AttemptOk(b, w.attempts[i]);
    forall x | x in w.log && x.message.sender == b.did && x.message.nonce == w.attempts[i].row.nonce
      ensures x.origin == FromAttempt(i)
    {
      HitIsOwn(b, base, w, i, x);
    }
  }

  // Nonces are never reused, neither within a table nor across the two.
  lemma NoncesDistinct(b: Bench, base: nat, ws: seq<World>, es: seq<Event>, k: nat, i: nat, j: nat)
    requires IsRun(b, base, ws, es) && k < |ws| && i < j < |ws[k].attempts|
    requires ws[k].attempts[i].row.nonce.Some?
    ensures ws[k].attempts[i].row.nonce != ws[k].attempts[j].row.nonce
  {
    RunInv(b, base, ws, es, k);
    assert AttemptOk(b, ws[k].attempts[i]) && AttemptOk(b, ws[k].attempts[j]);
  }
}
