// The bounded room-history scan behind idempotency and reconciliation (src/flop_bench/posting.py).
module HistoryScan {
  import opened Common
  import opened Paging
  import opened RoomLog

  const HISTORY_LIMITS := Limits(10, MAX_PAGE_LIMIT, 2_000, 1_000_000)

  // What is looked for: a DID and a message digest, with the digest function left abstract.
  datatype Key = Key(did: string, digest: string, hash: string -> string)

  datatype Tally = Tally(
    exactSeq: Option<int>, attemptSeq: Option<int>, matchedNonce: Option<int>,
    other: Option<(int, int)>, unattributable: Option<int>)

  datatype Report = Report(
    tally: Tally, complete: bool, failure: Option<string>, pages: nat, items: nat, bytes: nat)

  // Which matching messages are meant: all, those with the attempt's nonce, with another, with none.
  datatype Kind = Any | SameNonce | DifferentNonce | NoNonce

  predicate Hit(m: Message, key: Key, attempt: Option<int>, kind: Kind) {
    m.number.Some? && m.sender == key.did && m.text.Some? && key.hash(m.text.value) == key.digest
    && match kind
       case Any => true
       case SameNonce => attempt.Some? && m.nonce == attempt
       case DifferentNonce => attempt.Some? && m.nonce.Some? && m.nonce != attempt
       case NoNonce => attempt.Some? && m.nonce.None?
  }

  // o is the least sequence number among the hits in ms; None means there is no hit.
  ghost predicate LeastHit(o: Option<int>, ms: seq<Message>, key: Key, attempt: Option<int>, kind: Kind) {
    match o
    case None => forall m | m in ms :: !Hit(m, key, attempt, kind)
    case Some(v) =>
      (exists m | m in ms :: Hit(m, key, attempt, kind) && m.number == Some(v))
      && forall m | m in ms :: Hit(m, key, attempt, kind) ==> v <= m.number.value
  }

  // o is the sequence number of the hit that comes first in ms.
  ghost predicate FirstHit(o: Option<int>, ms: seq<Message>, key: Key, attempt: Option<int>, kind: Kind) {
    match o
    case None => forall m | m in ms :: !Hit(m, key, attempt, kind)
    case Some(v) => exists i | 0 <= i < |ms| ::
      Hit(ms[i], key, attempt, kind) && ms[i].number == Some(v)
      && forall j :: 0 <= j < i ==> !Hit(ms[j], key, attempt, kind)
  }

  // The unpaged specification of a scan that saw the messages ms.
  ghost predicate Describes(t: Tally, ms: seq<Message>, key: Key, attempt: Option<int>) {
    LeastHit(t.exactSeq, ms, key, attempt, Any)
    && LeastHit(t.attemptSeq, ms, key, attempt, SameNonce)
    && t.matchedNonce == (if t.attemptSeq.Some? then attempt else None)
    && LeastOther(t.other, ms, key, attempt)
    && FirstHit(t.unattributable, ms, key, attempt, NoNonce)
  }

  function SeqOf(o: Option<(int, int)>): Option<int> {
    if o.Some? then Some(o.value.0) else None
  }

  // The least hit with another nonce, together with the nonce of its first occurrence.
  ghost predicate LeastOther(o: Option<(int, int)>, ms: seq<Message>, key: Key, attempt: Option<int>) {
    LeastHit(SeqOf(o), ms, key, attempt, DifferentNonce)
    && (o.Some? ==> exists i | 0 <= i < |ms| :: FirstAt(i, o.value, ms, key, attempt))
  }

  ghost predicate FirstAt(i: nat, p: (int, int), ms: seq<Message>, key: Key, attempt: Option<int>)
    requires i < |ms|
  {
    Hit(ms[i], key, attempt, DifferentNonce) && ms[i].number == Some(p.0) && ms[i].nonce == Some(p.1)
    && forall j :: 0 <= j < i ==> !(Hit(ms[j], key, attempt, DifferentNonce) && ms[j].number == Some(p.0))
  }

  function MaxSeq(raws: seq<Raw>, floor: int): (r: int)
    ensures r >= floor
  {
    if raws == [] then floor
    else
      var r := MaxSeq(raws[..|raws| - 1], floor);
      var s := MessageSeq(raws[|raws| - 1]);
      if s.Some? && s.value > r then s.value else r
  }

  function Min(o: Option<int>, v: int): int {
    if o.Some? && o.value <= v then o.value else v
  }

  lemma LeastHitNext(o: Option<int>, ms: seq<Message>, m: Message, key: Key, attempt: Option<int>, kind: Kind)
    requires LeastHit(o, ms, key, attempt, kind)
    ensures LeastHit(if Hit(m, key, attempt, kind) then Some(Min(o, m.number.value)) else o,
                     ms + [m], key, attempt, kind)
  {
    assert m in ms + [m];
    assert forall x :: x in ms ==> x in ms + [m];
  }

  lemma FirstHitNext(o: Option<int>, ms: seq<Message>, m: Message, key: Key, attempt: Option<int>)
    requires FirstHit(o, ms, key, attempt, NoNonce)
    ensures FirstHit(if o.None? && Hit(m, key, attempt, NoNonce) then m.number else o,
                     ms + [m], key, attempt, NoNonce)
  {
    var all := ms + [m];
    assert all[|ms|] == m;
    assert forall i :: 0 <= i < |ms| ==> all[i] == ms[i] && ms[i] in ms;
  }

  lemma OtherHitNext(o: Option<(int, int)>, ms: seq<Message>, m: Message, key: Key, attempt: Option<int>)
    requires LeastOther(o, ms, key, attempt)
    ensures LeastOther(if Hit(m, key, attempt, DifferentNonce) && (o.None? || m.number.value < o.value.0)
                       then Some((m.number.value, m.nonce.value)) else o,
                       ms + [m], key, attempt)
  {
    var all := ms + [m];
    LeastHitNext(SeqOf(o), ms, m, key, attempt, DifferentNonce);
    if Hit(m, key, attempt, DifferentNonce) && (o.None? || m.number.value < o.value.0) {
      assert forall j :: 0 <= j < |ms| ==> all[j] in ms;
      assert FirstAt(|ms|, (m.number.value, m.nonce.value), all, key, attempt);
    } else if o.Some? {
      var i :| 0 <= i < |ms| && FirstAt(i, o.value, ms, key, attempt);
      assert FirstAt(i, o.value, all, key, attempt);
    }
  }

  // What the inner loop does with one message.
  function Observe(t: Tally, m: Message, key: Key, attempt: Option<int>): Tally {
    if !Hit(m, key, attempt, Any) then t
    else
      var v := m.number.value;
      var t1 := t.(exactSeq := Some(Min(t.exactSeq, v)));
      if attempt.Some? && m.nonce == attempt then
        t1.(attemptSeq := Some(Min(t.attemptSeq, v)), matchedNonce := m.nonce)
      else if attempt.Some? && m.nonce.Some? then
        if t.other.None? || v < t.other.value.0 then t1.(other := Some((v, m.nonce.value))) else t1
      else if attempt.Some? && t.unattributable.None? then t1.(unattributable := Some(v))
      else t1
  }

  lemma DescribesNext(t: Tally, ms: seq<Message>, m: Message, key: Key, attempt: Option<int>)
    requires Describes(t, ms, key, attempt)
    ensures Describes(Observe(t, m, key, attempt), ms + [m], key, attempt)
  {
    LeastHitNext(t.exactSeq, ms, m, key, attempt, Any);
    LeastHitNext(t.attemptSeq, ms, m, key, attempt, SameNonce);
    FirstHitNext(t.unattributable, ms, m, key, attempt);
    OtherHitNext(t.other, ms, m, key, attempt);
  }

  lemma {:induction false} DescribesNothing(key: Key, attempt: Option<int>)
    ensures Describes(Tally(None, None, None, None, None), [], key, attempt)
  {
  }

  // The inner loop over one page.
  method ReadPage(t0: Tally, key: Key, attempt: Option<int>, messages: seq<Raw>, since: int, ghost seen: seq<Message>)
    returns (t: Tally, maxSeq: int)
    requires Describes(t0, seen, key, attempt)
    ensures Describes(t, seen + CanonicalAll(messages), key, attempt)
    ensures maxSeq == MaxSeq(messages, since)
  {
    t := t0;
    maxSeq := since;
    ghost var all := seen;
    assert seen + CanonicalAll(messages[..0]) == seen;
    for i := 0 to |messages|
      invariant Describes(t, all, key, attempt) && all == seen + CanonicalAll(messages[..i])
      invariant maxSeq == MaxSeq(messages[..i], since)
    {
      var m := Canonical(messages[i]);
      DescribesNext(t, all, m, key, attempt);
      t := Observe(t, m, key, attempt);
      CanonicalNext(seen, messages, i);
      all := all + [m];
      assert messages[..i + 1][..i] == messages[..i];
      if m.number.Some? && m.number.value > maxSeq {
        maxSeq := m.number.value;
      }
    }
    assert messages[..|messages|] == messages;
  }

  lemma CanonicalNext(seen: seq<Message>, messages: seq<Raw>, i: nat)
    requires i < |messages|
    ensures seen + CanonicalAll(messages[..i + 1]) == seen + CanonicalAll(messages[..i]) + [Canonical(messages[i])]
  {
  }

  // seen consists of the first entries of the log, and since is the last of them.
  ghost predicate ReadUpTo(seen: seq<Message>, since: int, log: seq<Raw>) {
    |seen| <= |log| && seen == CanonicalAll(log[..|seen|]) && since == SeqAt(log, |seen|)
  }

  lemma {:induction false} MaxSeqOfRun(log: seq<Raw>, c: nat, d: nat)
    requires IsLog(log) && c <= d <= |log|
    ensures MaxSeq(log[c..d], SeqAt(log, c)) == SeqAt(log, d)
    decreases d - c
  {
    if c == d {
    } else {
      assert log[c..d][..d - c - 1] == log[c..d - 1];
      MaxSeqOfRun(log, c, d - 1);
    }
  }

  lemma CanonicalSplit(log: seq<Raw>, c: nat, d: nat)
    requires c <= d <= |log|
    ensures CanonicalAll(log[..c]) + CanonicalAll(log[c..d]) == CanonicalAll(log[..d])
  {
  }

  lemma SeqAtIncreasing(log: seq<Raw>, c: nat, d: nat)
    requires IsLog(log) && c < d <= |log|
    ensures SeqAt(log, c) < SeqAt(log, d)
  {
  }

  // One honest page extends what was read; a short page reaches the end of the log.
  lemma HonestPage(seen: seq<Message>, since: int, log: seq<Raw>, page: seq<Raw>, limit: nat)
    requires IsLog(log) && ReadUpTo(seen, since, log) && page == Take(EntriesAfter(log, since), limit)
    ensures ReadUpTo(seen + CanonicalAll(page), MaxSeq(page, since), log)
    ensures |page| < limit ==> |seen| + |page| == |log|
    ensures page != [] ==> MaxSeq(page, since) > since
  {
    var c := |seen|;
    var d := c + |page|;
    EntriesAfterPrefix(log, c);
    assert page == log[c..][..|page|] == log[c..d];
    MaxSeqOfRun(log, c, d);
    CanonicalSplit(log, c, d);
    if c < d {
      SeqAtIncreasing(log, c, d);
    }
  }

  lemma ReadUpToLaterLog(seen: seq<Message>, since: int, log: seq<Raw>, later: seq<Raw>)
    requires ReadUpTo(seen, since, log) && log <= later
    ensures ReadUpTo(seen, since, later)
  {
    assert later[..|seen|] == log[..|seen|];
  }

  // posting.classify_post_status
  function ClassifyStatus(status: int): string {
    if status == 408 || status == 429 || 500 <= status <= 599 then "remote_unavailable"
    else if status == 422 then "creation_rejection"
    else "post_rejected"
  }

  // Every status is of one of three classes.
  lemma StatusClasses(status: int)
    ensures ClassifyStatus(status) == "remote_unavailable" <==>
              status == 408 || status == 429 || (500 <= status && status < 600)
    ensures ClassifyStatus(status) == "creation_rejection" <==> status == 422
    ensures ClassifyStatus(status) in {"remote_unavailable", "creation_rejection", "post_rejected"}
  {
  }

  // The checks between a reply and its messages; Err is the failure classification.
  function PageOf(reply: Reply, bytes: nat, maxBytes: int): Result<seq<Raw>, string> {
    if reply.Unreachable? then Err(reply.failure)
    else if reply.redirected then Err("redirect_rejected")
    else if bytes > maxBytes then Err("history_scan_oversized")
    else if reply.status != 200 then Err(ClassifyStatus(reply.status))
    else if reply.body.NotAnObject? then Err("malformed_response")
    else Ok(reply.body.messages)
  }

  // The messages of a reply that may be read: direct, within the byte limit, a 200 and an object.
  function PageIn(reply: Reply, bytes: nat, maxBytes: int): Option<seq<Raw>> {
    if reply.Response? && !reply.redirected && bytes <= maxBytes && reply.status == 200 && reply.body.Page?
    then Some(reply.body.messages) else None
  }

  // The checks accept exactly such replies, and refuse a response for the first thing that is wrong with it.
  lemma PageOfCases(reply: Reply, bytes: nat, maxBytes: int)
    ensures var r := PageOf(reply, bytes, maxBytes);
            (r.Ok? <==> PageIn(reply, bytes, maxBytes).Some?)
            && (r.Ok? ==> PageIn(reply, bytes, maxBytes) == Some(r.value))
            && (reply.Unreachable? ==> r == Err(reply.failure))
            && (reply.Response? ==>
                  (r == Err("redirect_rejected") <==> reply.redirected)
                  && (r == Err("history_scan_oversized") <==> !reply.redirected && bytes > maxBytes)
                  && (r == Err("malformed_response") <==>
                        !reply.redirected && bytes <= maxBytes && reply.status == 200 && reply.body.NotAnObject?)
                  && (!reply.redirected && bytes <= maxBytes && reply.status != 200 ==>
                        r == Err(ClassifyStatus(reply.status))))
  {
    if reply.Response? {
      StatusClasses(reply.status);
    }
  }

  // Where a scan stands before request k: its cursor, the bytes received and everything read.
  datatype Position = Position(since: int, bytes: nat, seen: seq<Message>)

  // Request k, against any server: page by page, each asked for behind the largest number read so far.
  function Before(server: Server, maxBytes: int, k: nat): Position {
    if k == 0 then Position(0, 0, [])
    else
      var p := Before(server, maxBytes, k - 1);
      var page := Fetched(server, maxBytes, k - 1, p);
      var bytes := BytesRead(server(k - 1, p.since), p.bytes);
      if page.None? then Position(p.since, bytes, p.seen)
      else Position(MaxSeq(page.value, p.since), bytes, p.seen + CanonicalAll(page.value))
  }

  function Fetched(server: Server, maxBytes: int, k: nat, p: Position): Option<seq<Raw>> {
    PageIn(server(k, p.since), BytesRead(server(k, p.since), p.bytes), maxBytes)
  }

  // The page of request k.
  function PageAt(net: Network, lim: Limits, k: nat): Option<seq<Raw>> {
    Fetched(net.server, lim.maxBytes, k, Before(net.server, lim.maxBytes, k))
  }

  // Before request k limits and time are left.
  predicate MayAsk(net: Network, lim: Limits, k: nat) {
    k < lim.maxPages && |Before(net.server, lim.maxBytes, k).seen| < lim.maxItems && !net.slow(k)
  }

  // The page of request k is full and moves the cursor.
  predicate GoesOn(net: Network, lim: Limits, k: nat) {
    PageAt(net, lim, k).Some? && |PageAt(net, lim, k).value| >= lim.pageLimit
    && MaxSeq(PageAt(net, lim, k).value, Before(net.server, lim.maxBytes, k).since)
       > Before(net.server, lim.maxBytes, k).since
  }

  // Why a scan ends after n requests: its last page is refused, short or stuck, or a limit or the time is up.
  predicate EndsWith(net: Network, lim: Limits, n: nat, failure: Option<string>) {
    var p := Before(net.server, lim.maxBytes, n);
    if n > 0 && PageAt(net, lim, n - 1).None? then
      var q := Before(net.server, lim.maxBytes, n - 1);
      var r := PageOf(net.server(n - 1, q.since), p.bytes, lim.maxBytes);
      r.Err? && failure == Some(r.error)
    else if n > 0 && |PageAt(net, lim, n - 1).value| < lim.pageLimit then failure == None
    else if n > 0 && !GoesOn(net, lim, n - 1) then failure == Some("history_pagination_stalled")
    else if n >= lim.maxPages || |p.seen| >= lim.maxItems then failure == Some("history_scan_incomplete")
    else net.slow(n) && failure == Some("history_scan_timeout")
  }

  // Against any server: exactly the messages of the pages that passed the checks, in order, for a failed scan too; as
  // many requests as limits, time and pages allow; and the reason why there is no further one.
  predicate ReadsAll(net: Network, lim: Limits, failure: Option<string>, pages: nat, bytes: nat, seen: seq<Message>,
                     requests: nat)
  {
    var p := Before(net.server, lim.maxBytes, requests);
    seen == p.seen && bytes == p.bytes
    && (forall k: nat :: k < requests ==> MayAsk(net, lim, k))
    && (forall k: nat :: k + 1 < requests ==> GoesOn(net, lim, k))
    && EndsWith(net, lim, requests, failure)
    && pages == if requests > 0 && PageAt(net, lim, requests - 1).None? then requests - 1 else requests
  }

  // Against an honest server, k requests in: everything seen is a prefix of the log.
  ghost predicate Progress(server: Server, limit: int, logs: nat -> seq<Raw>, seen: seq<Message>, since: int, k: nat) {
    limit >= 1 && Honest(server, limit, logs) ==>
      ReadUpTo(seen, since, logs(k)) && (k > 0 ==> seen <= CanonicalAll(logs(k - 1)))
  }

  ghost predicate SeenAllOf(server: Server, limit: int, logs: nat -> seq<Raw>, seen: seq<Message>, k: nat) {
    limit >= 1 && Honest(server, limit, logs) ==> k > 0 && seen == CanonicalAll(logs(k - 1))
  }

  ghost predicate SeenPartOf(server: Server, limit: int, logs: nat -> seq<Raw>, seen: seq<Message>, k: nat) {
    limit >= 1 && Honest(server, limit, logs) && k > 0 ==> seen <= CanonicalAll(logs(k - 1))
  }

  lemma ProgressStart(server: Server, limit: int, logs: nat -> seq<Raw>)
    ensures Progress(server, limit, logs, [], 0, 0) && SeenPartOf(server, limit, logs, [], 0)
  {
  }

  lemma ProgressStep(server: Server, limit: int, logs: nat -> seq<Raw>, seen: seq<Message>, since: int, k: nat,
                     bytes: nat, maxBytes: int)
    requires Progress(server, limit, logs, seen, since, k)
    ensures SeenPartOf(server, limit, logs, seen, k + 1)
    ensures PageOf(server(k, since), bytes, maxBytes).Ok? ==>
              var page := PageOf(server(k, since), bytes, maxBytes).value;
              Progress(server, limit, logs, seen + CanonicalAll(page), MaxSeq(page, since), k + 1)
              && (|page| < limit ==> SeenAllOf(server, limit, logs, seen + CanonicalAll(page), k + 1))
  {
    if limit >= 1 && Honest(server, limit, logs) {
      assert logs(k) <= logs(k + 1);
      PrefixSeen(seen, logs(k));
      if PageOf(server(k, since), bytes, maxBytes).Ok? {
        var page := PageOf(server(k, since), bytes, maxBytes).value;
        var next := seen + CanonicalAll(page);
        HonestPage(seen, since, logs(k), page, limit);
        ReadUpToLaterLog(next, MaxSeq(page, since), logs(k), logs(k + 1));
        PrefixSeen(next, logs(k));
      }
    }
  }

  lemma PrefixSeen(seen: seq<Message>, log: seq<Raw>)
    requires |seen| <= |log| && seen == CanonicalAll(log[..|seen|])
    ensures seen <= CanonicalAll(log)
  {
  }

  // A server, and whether the time budget is spent before request k.
  datatype Network = Network(server: Server, slow: nat -> bool)

  // What the proof knows about the server: its log at each request, and the sizes of its replies.
  datatype Truth = Truth(logs: nat -> seq<Raw>, sizes: nat -> nat)

  ghost predicate IsHonest(net: Network, lim: Limits, t: Truth) {
    lim.pageLimit >= 1 && Honest(net.server, lim.pageLimit, t.logs)
  }

  // The server is honest, and each request that the log takes is answered in time from the log as it is then.
  ghost predicate Undisturbed(net: Network, lim: Limits, t: Truth) {
    lim.pageLimit <= MAX_PAGE_LIMIT && IsHonest(net, lim, t)
    && forall k: nat :: FullPages(t.logs, 0, lim.pageLimit, k) ==> AnswersInTime(net, lim, t, k)
  }

  ghost predicate AnswersInTime(net: Network, lim: Limits, t: Truth, k: nat)
    requires lim.pageLimit >= 1
  {
    !net.slow(k)
    && forall since: int :: AnswersFrom(net.server(k, since), t.logs(k), since, lim.pageLimit, t.sizes(k))
  }

  // The scan completes at the request at which the log ends in a short page within the limits, and at no other.
  ghost predicate CompletesWhen(lim: Limits, t: Truth, complete: bool, requests: nat) {
    forall k: nat :: CompletesAt(t.logs, 0, lim, t.sizes, k) <==> complete && requests == k + 1
  }

  // Between two pages of an honest server all pages were full.
  ghost predicate OnlyFullPages(net: Network, lim: Limits, t: Truth, seen: seq<Message>, k: nat, items: nat,
                                bytes: nat)
  {
    (IsHonest(net, lim, t) ==> items == |seen| == k * lim.pageLimit)
    && (Undisturbed(net, lim, t) ==> FullPages(t.logs, 0, lim.pageLimit, k) && bytes == TotalSize(t.sizes, k))
  }

  // What every finished scan guarantees.
  ghost predicate Scanned(key: Key, attempt: Option<int>, net: Network, lim: Limits, t: Truth, r: Report,
                          seen: seq<Message>, requests: nat)
  {
    // Against any server: the tally describes what was read.
    Describes(r.tally, seen, key, attempt) && (r.complete <==> r.failure.None?)
    && r.items == |seen| && ReadsAll(net, lim, r.failure, r.pages, r.bytes, seen, requests)
    // Against an honest server: only real entries, and all entries of the last log when complete.
    && SeenPartOf(net.server, lim.pageLimit, t.logs, seen, requests) && (requests == 0 ==> seen == [])
    && (r.complete ==> SeenAllOf(net.server, lim.pageLimit, t.logs, seen, requests))
    // A complete scan is possible only of a log that fits the limits, and undisturbed it is certain then.
    && (r.complete ==> requests > 0) && (r.complete && IsHonest(net, lim, t) ==> Fits(|t.logs(requests - 1)|, lim))
    && (Undisturbed(net, lim, t) ==> CompletesWhen(lim, t, r.complete, requests))
    // An incomplete one has read full pages, and undisturbed as many as the limits allow.
    && (!r.complete && IsHonest(net, lim, t) ==> |seen| == r.pages * lim.pageLimit)
    && (!r.complete && Undisturbed(net, lim, t) ==> Exhausted(lim, t, r.pages))
  }

  // After n pages there is no room for another one.
  predicate Exhausted(lim: Limits, t: Truth, n: nat) {
    n >= lim.maxPages || n * lim.pageLimit >= lim.maxItems || TotalSize(t.sizes, n + 1) > lim.maxBytes
  }

  // After full pages only, the next request is one that the log takes.
  lemma NextAnswer(net: Network, lim: Limits, t: Truth, k: nat, since: int)
    requires Undisturbed(net, lim, t) && FullPages(t.logs, 0, lim.pageLimit, k)
    ensures !net.slow(k) && AnswersFrom(net.server(k, since), t.logs(k), since, lim.pageLimit, t.sizes(k))
  {
    hide AnswersFrom, Honest, FullPages;
    assert AnswersInTime(net, lim, t, k);
  }

  // The length of one honest page, and what it leaves.
  lemma PageLength(net: Network, lim: Limits, t: Truth, seen: seq<Message>, since: int, k: nat, page: seq<Raw>)
    requires IsHonest(net, lim, t) && Progress(net.server, lim.pageLimit, t.logs, seen, since, k)
    requires net.server(k, since).Response? && net.server(k, since).status == 200
    requires net.server(k, since).body == Page(page)
    ensures |page| <= lim.pageLimit && |seen| + |page| <= |t.logs(k)|
    ensures |page| < lim.pageLimit ==> |seen| + |page| == |t.logs(k)|
    ensures page != [] ==> MaxSeq(page, since) > since
  {
    hide EntriesAfter, IsLog, MaxSeq;
    HonestPage(seen, since, t.logs(k), page, lim.pageLimit);
    assert |seen + CanonicalAll(page)| == |seen| + |page|;
  }

  // A page that was read: a short one ends a log that fits, a full one keeps the count.
  lemma PageRead(net: Network, lim: Limits, t: Truth, seen: seq<Message>, since: int, k: nat, items: nat,
                 bytes: nat, page: seq<Raw>)
    requires Progress(net.server, lim.pageLimit, t.logs, seen, since, k)
    requires OnlyFullPages(net, lim, t, seen, k, items, bytes) && k < lim.maxPages && items < lim.maxItems
    requires PageOf(net.server(k, since), BytesRead(net.server(k, since), bytes), lim.maxBytes) == Ok(page)
    ensures IsHonest(net, lim, t) && |page| < lim.pageLimit ==> Fits(|t.logs(k)|, lim)
    ensures Undisturbed(net, lim, t) && |page| < lim.pageLimit ==> CompletesWhen(lim, t, true, k + 1)
    ensures IsHonest(net, lim, t) && |page| >= lim.pageLimit ==> MaxSeq(page, since) > since
    ensures |page| >= lim.pageLimit ==>
              OnlyFullPages(net, lim, t, seen + CanonicalAll(page), k + 1, items + |page|,
                            BytesRead(net.server(k, since), bytes))
  {
    hide Progress, MaxSeq, EntriesAfter, IsLog, Fits, Honest;
    if Undisturbed(net, lim, t) {
      NextAnswer(net, lim, t, k, since);
    }
    if IsHonest(net, lim, t) {
      PageLength(net, lim, t, seen, since, k, page);
      if |page| < lim.pageLimit {
        ShortPageFits(|t.logs(k)|, lim, k, |page|);
        if Undisturbed(net, lim, t) {
          ShortPageEnds(lim, t, k);
        }
      } else {
        assert (k + 1) * lim.pageLimit == k * lim.pageLimit + lim.pageLimit;
      }
    }
  }

  // The short page that is within the limits is where the scan completes.
  lemma ShortPageEnds(lim: Limits, t: Truth, k: nat)
    requires CompletesAt(t.logs, 0, lim, t.sizes, k)
    ensures CompletesWhen(lim, t, true, k + 1)
  {
    hide FullPages, TotalSize;
    forall k': nat | CompletesAt(t.logs, 0, lim, t.sizes, k')
      ensures k' == k
    {
      EndsOnce(t.logs, 0, lim.pageLimit, k, k');
    }
  }

  // Undisturbed, only the byte limit stands between a request and its page.
  lemma PageRefused(net: Network, lim: Limits, t: Truth, seen: seq<Message>, since: int, k: nat, items: nat, bytes: nat)
    requires OnlyFullPages(net, lim, t, seen, k, items, bytes)
    requires PageOf(net.server(k, since), BytesRead(net.server(k, since), bytes), lim.maxBytes).Err?
    ensures Undisturbed(net, lim, t) ==> CompletesWhen(lim, t, false, k + 1) && Exhausted(lim, t, k)
    ensures IsHonest(net, lim, t) ==> items == |seen| == k * lim.pageLimit
  {
    hide EntriesAfter, IsLog, FullPages, CompletesAt;
    if Undisturbed(net, lim, t) {
      NextAnswer(net, lim, t, k, since);
      StoppedNeverCompletes(t.logs, 0, lim, t.sizes, k);
    }
  }

  lemma OutOfBudget(net: Network, lim: Limits, t: Truth, seen: seq<Message>, k: nat, items: nat, bytes: nat)
    requires OnlyFullPages(net, lim, t, seen, k, items, bytes) && (k >= lim.maxPages || items >= lim.maxItems)
    ensures Undisturbed(net, lim, t) ==> CompletesWhen(lim, t, false, k) && Exhausted(lim, t, k)
    ensures IsHonest(net, lim, t) ==> items == |seen| == k * lim.pageLimit
  {
    hide EntriesAfter, IsLog, FullPages, CompletesAt;
    if Undisturbed(net, lim, t) {
      StoppedNeverCompletes(t.logs, 0, lim, t.sizes, k);
    }
  }

  lemma NothingRead(net: Network, lim: Limits, t: Truth)
    ensures OnlyFullPages(net, lim, t, [], 0, 0, 0) && AtRequest(net, lim, 0, 0, 0, [])
  {
  }

  lemma SlowMeansDisturbed(net: Network, lim: Limits, t: Truth, seen: seq<Message>, k: nat, items: nat, bytes: nat)
    requires net.slow(k) && OnlyFullPages(net, lim, t, seen, k, items, bytes)
    ensures !Undisturbed(net, lim, t)
    ensures IsHonest(net, lim, t) ==> items == |seen| == k * lim.pageLimit
  {
    if Undisturbed(net, lim, t) {
      NextAnswer(net, lim, t, k, 0);
    }
  }

  // Request k of a scan: one page, checked and read.
  method FetchPage(t0: Tally, key: Key, attempt: Option<int>, net: Network, lim: Limits, k: nat, since: int,
                   bytes0: nat, ghost t: Truth, ghost seen0: seq<Message>)
    returns (tally: Tally, bytes: nat, page: Result<seq<Raw>, string>, maxSeq: int, ghost seen: seq<Message>)
    requires Describes(t0, seen0, key, attempt)
    requires Progress(net.server, lim.pageLimit, t.logs, seen0, since, k)
    ensures bytes == BytesRead(net.server(k, since), bytes0)
    ensures page == PageOf(net.server(k, since), bytes, lim.maxBytes)
    ensures page.Ok? ==> seen == seen0 + CanonicalAll(page.value) && maxSeq == MaxSeq(page.value, since)
    ensures page.Err? ==> seen == seen0 && maxSeq == since
    ensures Describes(tally, seen, key, attempt)
    ensures SeenPartOf(net.server, lim.pageLimit, t.logs, seen, k + 1)
    ensures page.Ok? ==> Progress(net.server, lim.pageLimit, t.logs, seen, maxSeq, k + 1)
    ensures page.Ok? && |page.value| < lim.pageLimit ==>
              SeenAllOf(net.server, lim.pageLimit, t.logs, seen, k + 1)
  {
    hide Describes, SeenAllOf, PageOf, MaxSeq, Honest, ReadUpTo;
    tally, seen, maxSeq := t0, seen0, since;
    var reply := net.server(k, since);
    bytes := BytesRead(reply, bytes0);
    page := PageOf(reply, bytes, lim.maxBytes);
    ProgressStep(net.server, lim.pageLimit, t.logs, seen0, since, k, bytes, lim.maxBytes);
    if page.Ok? {
      tally, maxSeq := ReadPage(t0, key, attempt, page.value, since, seen0);
      seen := seen0 + CanonicalAll(page.value);
    }
  }

  // posting.scan_room_history_for_hash; Err stands for the SafetyError on an unsupported page size.
  method ScanRoomHistory(key: Key, attempt: Option<int>, net: Network, lim: Limits, ghost t: Truth)
    returns (r: Result<Report, string>, ghost seen: seq<Message>, ghost requests: nat)
    ensures r.Err? <==>
              lim.maxPages > 0 && lim.maxItems > 0 && !net.slow(0) && !(1 <= lim.pageLimit <= MAX_PAGE_LIMIT)
    ensures r.Ok? ==> Scanned(key, attempt, net, lim, t, r.value, seen, requests)
  {
    hide Describes, Progress, SeenPartOf, SeenAllOf, OnlyFullPages, Undisturbed, IsHonest, CompletesWhen, Fits,
         BytesRead, PageOf, MaxSeq, Exhausted, Before, MayAsk, GoesOn, PageAt;
    seen, requests := [], 0;
    var k: nat := 0;
    var pages: nat, items: nat, bytes: nat, since := 0, 0, 0, 0;
    var tally := Tally(None, None, None, None, None);
    DescribesNothing(key, attempt);
    ProgressStart(net.server, lim.pageLimit, t.logs);
    NothingRead(net, lim, t);
    var failure: Option<string> := Some("history_scan_incomplete");
    ghost var running := true;
    while pages < lim.maxPages && items < lim.maxItems
      invariant pages == k == requests && failure.Some? && running && (k == 0 ==> items == 0)
      invariant k > 0 ==> 1 <= lim.pageLimit <= MAX_PAGE_LIMIT
      invariant Describes(tally, seen, key, attempt)
      invariant Progress(net.server, lim.pageLimit, t.logs, seen, since, k)
      invariant SeenPartOf(net.server, lim.pageLimit, t.logs, seen, k) && (k == 0 ==> seen == [])
      invariant OnlyFullPages(net, lim, t, seen, k, items, bytes)
      invariant AtRequest(net, lim, k, since, bytes, seen) && items == |seen|
      decreases lim.maxPages - pages
    {
      if net.slow(k) {
        SlowMeansDisturbed(net, lim, t, seen, k, items, bytes);
        failure, running := Some("history_scan_timeout"), false;
        OutOfTime(net, lim, k, since, bytes, seen);
        break;
      }
      if !(1 <= lim.pageLimit <= MAX_PAGE_LIMIT) {
        r := Err("room history limit is outside the supported bound");
        return;
      }
      var page, maxSeq;
      ghost var seen0, bytes0, since0 := seen, bytes, since;
      tally, bytes, page, maxSeq, seen := FetchPage(tally, key, attempt, net, lim, k, since, bytes, t, seen);
      AfterRequest(net, lim, k, since, bytes0, seen0);
      if page.Err? {
        PageRefused(net, lim, t, seen0, since0, k, items, bytes0);
        failure, running := Some(page.error), false;
        requests := k + 1;
        break;
      }
      PageRead(net, lim, t, seen0, since0, k, items, bytes0, page.value);
      k, requests := k + 1, requests + 1;
      pages := pages + 1;
      items := items + |page.value|;
      if |page.value| < lim.pageLimit {
        failure, running := None, false;
        break;
      }
      if maxSeq <= since {
        failure, running := Some("history_pagination_stalled"), false;
        assert !IsHonest(net, lim, t);
        UndisturbedIsHonest(net, lim, t);
        break;
      }
      since := maxSeq;
    }
    if running {
      OutOfBudget(net, lim, t, seen, k, items, bytes);
      OutOfRoom(net, lim, k, since, bytes, seen);
    }
    r := Ok(Report(tally, failure.None?, failure, pages, items, bytes));
  }

  // The loop variables before request k, behind k full pages.
  predicate AtRequest(net: Network, lim: Limits, k: nat, since: int, bytes: nat, seen: seq<Message>) {
    Before(net.server, lim.maxBytes, k) == Position(since, bytes, seen)
    && forall j: nat :: j < k ==> MayAsk(net, lim, j) && GoesOn(net, lim, j)
  }

  // The request is made: what it brings, and how the scan ends with it or goes on.
  lemma AfterRequest(net: Network, lim: Limits, k: nat, since: int, bytes: nat, seen: seq<Message>)
    requires AtRequest(net, lim, k, since, bytes, seen)
    requires k < lim.maxPages && |seen| < lim.maxItems && !net.slow(k)
    ensures var total := BytesRead(net.server(k, since), bytes);
            var page := PageOf(net.server(k, since), total, lim.maxBytes);
            if page.Err? then ReadsAll(net, lim, Some(page.error), k, total, seen, k + 1)
            else
              var all, last := seen + CanonicalAll(page.value), MaxSeq(page.value, since);
              if |page.value| < lim.pageLimit then ReadsAll(net, lim, None, k + 1, total, all, k + 1)
              else if last <= since then
                ReadsAll(net, lim, Some("history_pagination_stalled"), k + 1, total, all, k + 1)
              else AtRequest(net, lim, k + 1, last, total, all)
  {
    hide BytesRead, PageOf, PageIn, MaxSeq;
    var reply := net.server(k, since);
    PageOfCases(reply, BytesRead(reply, bytes), lim.maxBytes);
    assert MayAsk(net, lim, k);
    assert PageAt(net, lim, k) == PageIn(reply, BytesRead(reply, bytes), lim.maxBytes);
  }

  lemma OutOfTime(net: Network, lim: Limits, k: nat, since: int, bytes: nat, seen: seq<Message>)
    requires AtRequest(net, lim, k, since, bytes, seen) && k < lim.maxPages && |seen| < lim.maxItems && net.slow(k)
    ensures ReadsAll(net, lim, Some("history_scan_timeout"), k, bytes, seen, k)
  {
    hide Before, MaxSeq, PageOf;
    assert k > 0 ==> GoesOn(net, lim, k - 1);
  }

  lemma OutOfRoom(net: Network, lim: Limits, k: nat, since: int, bytes: nat, seen: seq<Message>)
    requires AtRequest(net, lim, k, since, bytes, seen) && (k >= lim.maxPages || |seen| >= lim.maxItems)
    ensures ReadsAll(net, lim, Some("history_scan_incomplete"), k, bytes, seen, k)
  {
    hide Before, MaxSeq, PageOf;
    assert k > 0 ==> GoesOn(net, lim, k - 1);
  }

  lemma ScannedParts(key: Key, attempt: Option<int>, net: Network, lim: Limits, t: Truth, r: Report,
                     seen: seq<Message>, requests: nat)
    requires Scanned(key, attempt, net, lim, t, r, seen, requests)
    ensures Describes(r.tally, seen, key, attempt) && (r.complete <==> r.failure.None?)
    ensures SeenPartOf(net.server, lim.pageLimit, t.logs, seen, requests) && (requests == 0 ==> seen == [])
    ensures r.complete ==> SeenAllOf(net.server, lim.pageLimit, t.logs, seen, requests)
  {
    hide Describes, SeenPartOf, SeenAllOf, Undisturbed, IsHonest, CompletesWhen, ReadsAll;
  }

  lemma ScannedReads(key: Key, attempt: Option<int>, net: Network, lim: Limits, t: Truth, r: Report,
                     seen: seq<Message>, requests: nat)
    requires Scanned(key, attempt, net, lim, t, r, seen, requests)
    ensures Describes(r.tally, seen, key, attempt) && (r.complete <==> r.failure.None?) && r.items == |seen|
    ensures ReadsAll(net, lim, r.failure, r.pages, r.bytes, seen, requests)
  {
    hide Describes, SeenPartOf, SeenAllOf, Undisturbed, IsHonest, CompletesWhen, ReadsAll;
  }

  // A scan ends at one request only.
  lemma EndsOnceOnly(net: Network, lim: Limits, r: Report, seen: seq<Message>, n: nat, r': Report,
                     seen': seq<Message>, n': nat)
    requires ReadsAll(net, lim, r.failure, r.pages, r.bytes, seen, n)
    requires ReadsAll(net, lim, r'.failure, r'.pages, r'.bytes, seen', n')
    ensures n <= n'
  {
    hide Before, PageAt, PageOf, MaxSeq;
    assert 0 < n' < n ==> GoesOn(net, lim, n' - 1);
    assert n' < n ==> MayAsk(net, lim, n');
  }

  // The specification settles the whole scan: two scans of one server at one time report and see the same.
  lemma ScanDetermined(key: Key, attempt: Option<int>, net: Network, lim: Limits, t: Truth, r: Report,
                       seen: seq<Message>, n: nat, t': Truth, r': Report, seen': seq<Message>, n': nat)
    requires Scanned(key, attempt, net, lim, t, r, seen, n) && Scanned(key, attempt, net, lim, t', r', seen', n')
    ensures r == r' && seen == seen' && n == n'
  {
    hide Scanned, Describes, Before, PageAt, MayAsk, GoesOn, PageOf;
    ScannedReads(key, attempt, net, lim, t, r, seen, n);
    ScannedReads(key, attempt, net, lim, t', r', seen', n');
    EndsOnceOnly(net, lim, r, seen, n, r', seen', n');
    EndsOnceOnly(net, lim, r', seen', n', r, seen, n);
    DescribesUnique(r.tally, r'.tally, seen, key, attempt);
  }

  // Against an honest server, every entry of the log within the pages read was seen, whether the scan is complete or
  // not: a match among them is reported, at its number or a lower one.
  lemma FrontIsRead(key: Key, attempt: Option<int>, net: Network, lim: Limits, t: Truth, r: Report,
                    seen: seq<Message>, requests: nat, i: nat)
    requires Scanned(key, attempt, net, lim, t, r, seen, requests) && IsHonest(net, lim, t)
    requires i < |t.logs(0)| && (r.complete || i < r.pages * lim.pageLimit)
    ensures var m := Canonical(t.logs(0)[i]);
            m in seen
            && (Hit(m, key, attempt, Any) ==> r.tally.exactSeq.Some? && r.tally.exactSeq.value <= m.number.value)
            && (Hit(m, key, attempt, SameNonce) ==>
                  r.tally.attemptSeq.Some? && r.tally.attemptSeq.value <= m.number.value)
  {
    hide ReadsAll, Undisturbed, CompletesWhen, FirstHit, LeastOther, IsLog, EntriesAfter;
    var log := t.logs(if requests > 0 then requests - 1 else 0);
    assert t.logs(0) <= log && log[i] == t.logs(0)[i];
    assert seen[i] == CanonicalAll(log)[i];
  }

  // Undisturbed, a scan completes exactly when the log, as it grows, comes to a short page within the limits; a log
  // that stands still does so exactly when its entries fit them.
  lemma CompletesExactlyWhen(key: Key, attempt: Option<int>, net: Network, lim: Limits, t: Truth, r: Report,
                             seen: seq<Message>, requests: nat)
    requires Scanned(key, attempt, net, lim, t, r, seen, requests) && Undisturbed(net, lim, t)
    ensures r.complete <==> exists k: nat :: CompletesAt(t.logs, 0, lim, t.sizes, k)
    ensures (forall j: nat :: j <= |t.logs(0)| / lim.pageLimit ==> |t.logs(j)| == |t.logs(0)|) ==>
              (r.complete <==> Fits(|t.logs(0)|, lim) && WithinBytes(|t.logs(0)|, lim, t.sizes))
  {
    hide Describes, SeenPartOf, SeenAllOf, CompletesAt, Fits, WithinBytes, ReadsAll, Exhausted;
    if r.complete {
      assert CompletesAt(t.logs, 0, lim, t.sizes, requests - 1);
    }
    if forall j: nat :: j <= |t.logs(0)| / lim.pageLimit ==> |t.logs(j)| == |t.logs(0)| {
      StandingStill(t.logs, 0, lim, t.sizes);
    }
  }

  lemma UndisturbedIsHonest(net: Network, lim: Limits, t: Truth)
    ensures Undisturbed(net, lim, t) ==> IsHonest(net, lim, t)
  {
  }

  // The specification determines the tally, so page sizes and the pace of the log cannot influence it.
  lemma DescribesUnique(t: Tally, t': Tally, ms: seq<Message>, key: Key, attempt: Option<int>)
    requires Describes(t, ms, key, attempt) && Describes(t', ms, key, attempt)
    ensures t == t'
  {
    if t.other.Some? {
      var i :| 0 <= i < |ms| && FirstAt(i, t.other.value, ms, key, attempt);
      var j :| 0 <= j < |ms| && FirstAt(j, t'.other.value, ms, key, attempt);
      assert i == j;
    }
  }
}
