// poll_mailbox: many exits, one meaning (src/flop_bench/mailbox.py).
module MailboxPoll {
  import opened Common
  import opened Paging
  import opened RoomLog
  import opened Mailbox

  datatype Outcome = Complete(items: seq<Item>, cursor: int) | Incomplete(failure: string) | Unsupported(error: string)

  // The arguments of a poll, with the cursor and the activation it read from the state; `slow(k)` tells
  // whether the time budget is spent before request k.
  datatype Job = Job(
    cursor: nat, active: bool, parse: Parser, server: Server, slow: nat -> bool, lim: Limits)

  // The variables of the loop; `raws` are the messages behind `classified`.
  datatype Scan = Scan(
    raws: seq<Raw>, classified: seq<Item>, since: int, pages: nat, items: nat, bytes: nat, retries: nat,
    requests: nat)

  // What the proof knows about the server: its log at each request, and the sizes of its replies.
  datatype Truth = Truth(logs: nat -> seq<Raw>, sizes: nat -> nat)

  ghost predicate Gaps(log: seq<Raw>) {
    exists i :: 0 <= i < |log| && MessageSeq(log[i]) != Some(i + 1)
  }

  // An honest server of a mailbox room, whose sequence numbers are 1, 2, 3, ... without gaps.
  ghost predicate HonestMailbox(j: Job, t: Truth) {
    j.lim.pageLimit >= 1 && Honest(j.server, j.lim.pageLimit, t.logs)
    && (forall k: nat :: !Gaps(t.logs(k))) && j.cursor <= |t.logs(0)|
  }

  // Before the next request: what was read is the log from the cursor on, as far as `since`.
  ghost predicate ReadFrom(j: Job, t: Truth, raws: seq<Raw>, k: nat) {
    HonestMailbox(j, t) ==>
      j.cursor + |raws| <= |t.logs(k)| && raws == t.logs(k)[j.cursor..j.cursor + |raws|]
  }

  // After k requests: everything behind the cursor in the last log was read.
  ghost predicate ReadEverything(j: Job, t: Truth, raws: seq<Raw>, k: nat) {
    HonestMailbox(j, t) ==>
      k > 0 && j.cursor <= |t.logs(k - 1)| && raws == t.logs(k - 1)[j.cursor..]
  }

  // The server is honest, and each request that the log takes is answered in time from the log of texts as it is then.
  ghost predicate Undisturbed(j: Job, t: Truth) {
    j.lim.pageLimit <= MAX_PAGE_LIMIT && HonestMailbox(j, t)
    && forall k: nat :: FullPages(t.logs, j.cursor, j.lim.pageLimit, k) ==> AnswersInTime(j, t, k)
  }

  ghost predicate AnswersInTime(j: Job, t: Truth, k: nat)
    requires j.lim.pageLimit >= 1
  {
    !j.slow(k) && (forall i :: 0 <= i < |t.logs(k)| ==> t.logs(k)[i].text.Some?)
    && forall since: int :: AnswersFrom(j.server(k, since), t.logs(k), since, j.lim.pageLimit, t.sizes(k))
  }

  // The log ends at request k in a short page within the limits of each reply and of all together.
  ghost predicate FitsAt(j: Job, t: Truth, k: nat) {
    CompletesAt(t.logs, j.cursor, j.lim, t.sizes, k) && forall n: nat :: n <= k ==> t.sizes(n) <= MAX_RESPONSE_BYTES
  }

  ghost predicate CanComplete(j: Job, t: Truth) {
    exists k: nat :: FitsAt(j, t, k)
  }

  // The poll completes at the request at which the log ends within the limits, and at no other.
  ghost predicate CompletesWhen(j: Job, t: Truth, complete: bool, requests: nat) {
    forall k: nat :: FitsAt(j, t, k) <==> complete && requests == k + 1
  }

  // An undisturbed poll between two pages has seen full pages only.
  ghost predicate OnlyFullPages(j: Job, t: Truth, c: Scan) {
    Undisturbed(j, t) ==>
      c.retries == 0 && c.pages == c.requests && c.items == |c.raws| == c.pages * j.lim.pageLimit
      && c.bytes == TotalSize(t.sizes, c.pages) && j.cursor + |c.raws| <= |t.logs(c.pages)|
      && FullPages(t.logs, j.cursor, j.lim.pageLimit, c.pages)
      && forall k: nat :: k < c.pages ==> t.sizes(k) <= MAX_RESPONSE_BYTES
  }

  // What the poll holds before request k: the messages of all usable pages so far, and the bytes received.
  datatype Received = Received(raws: seq<Raw>, bytes: nat)

  function Before(j: Job, k: nat): Received {
    if k == 0 then Received([], 0)
    else
      var p := Before(j, k - 1);
      var reply := j.server(k - 1, j.cursor + |p.raws|);
      var bytes := BytesRead(reply, p.bytes);
      if Usable(reply, bytes, j.lim.maxBytes) && reply.status == 200 && reply.body.Page?
      then Received(p.raws + reply.body.messages, bytes) else Received(p.raws, bytes)
  }

  // Why a poll is incomplete: no time, no room for another page, or a last reply that is refused or does not go on.
  ghost predicate FailsWith(j: Job, c: Scan, failure: string) {
    var inBudget := c.pages < j.lim.maxPages && c.items < j.lim.maxItems;
    (failure == "mailbox_poll_timeout" && inBudget && j.slow(c.requests))
    || (failure == "history_scan_incomplete" && !inBudget)
    || (c.requests > 0 && (
          var p := Before(j, c.requests - 1);
          var reply := j.server(c.requests - 1, j.cursor + |p.raws|);
          var judged := Judge(reply, BytesRead(reply, p.bytes), j.lim.maxBytes, c.retries);
          judged == Failure(failure)
          || (judged.Messages? && PageFails(judged.raws, j.cursor + |p.raws|, failure))))
  }

  // Request n - 1 was answered with a short page, or with the 404 of an empty room.
  predicate EndsShort(j: Job, n: nat) {
    n > 0 && (
      var p := Before(j, n - 1);
      var reply := j.server(n - 1, j.cursor + |p.raws|);
      Usable(reply, BytesRead(reply, p.bytes), j.lim.maxBytes)
      && (reply.status == 404
          || (reply.status == 200 && reply.body.Page? && |reply.body.messages| < j.lim.pageLimit)))
  }

  predicate Consistent(j: Job, c: Scan) {
    Gapless(c.raws, j.cursor) && c.classified == ClassifyAll(j.parse, j.active, c.raws, j.cursor)
    && c.since == j.cursor + |c.raws|
  }

  // The loop invariant.
  ghost predicate Good(j: Job, t: Truth, c: Scan) {
    Consistent(j, c) && c.requests == c.pages + c.retries && c.retries <= 1
    && ReadFrom(j, t, c.raws, c.requests) && OnlyFullPages(j, t, c) && Holds(j, c)
  }

  predicate Holds(j: Job, c: Scan) {
    Before(j, c.requests) == Received(c.raws, c.bytes)
  }

  // What every exit of the poll guarantees.
  ghost predicate Finished(j: Job, t: Truth, c: Scan, r: Outcome) {
    // Against any server: the items classify a gapless run of messages behind the cursor.
    (r.Complete? ==>
       Gapless(c.raws, j.cursor) && r.items == ClassifyAll(j.parse, j.active, c.raws, j.cursor)
       && r.cursor == j.cursor + |c.raws| && c.raws == Before(j, c.requests).raws && EndsShort(j, c.requests))
    // Against an honest server: exactly the messages behind the cursor.
    && (r.Complete? ==> ReadEverything(j, t, c.raws, c.requests))
    // Undisturbed: it completes exactly when and where the log ends within the limits.
    && (Undisturbed(j, t) ==> CompletesWhen(j, t, r.Complete?, c.requests))
    && (r.Unsupported? ==> !(1 <= j.lim.pageLimit <= MAX_PAGE_LIMIT))
    && (r.Incomplete? ==> FailsWith(j, c, r.failure))
  }

  // The answer to the next request, after classification of a page.
  ghost predicate Answers(answer: Answer, j: Job, c: Scan) {
    var reply := j.server(c.requests, c.since);
    var judged := Judge(reply, BytesRead(reply, c.bytes), j.lim.maxBytes, c.retries);
    if judged.Messages? && !Gapless(judged.raws, c.since)
    then answer.Failure? && PageFails(judged.raws, c.since, answer.classification) else answer == judged
  }

  lemma PageOfMailbox(log: seq<Raw>, since: nat, limit: nat)
    requires IsLog(log) && since <= |log| && !Gaps(log)
    ensures var page := Take(EntriesAfter(log, since), limit);
            since + |page| <= |log| && page == log[since..since + |page|]
            && |page| <= limit && (|page| < limit ==> since + |page| == |log|)
  {
    GaplessPosition(log, since);
    EntriesAfterPrefix(log, since);
    hide IsLog, EntriesAfter, MessageSeq, Gaps, SeqAt;
    var rest, page := log[since..], Take(EntriesAfter(log, since), limit);
    assert page == rest[..|page|];
    assert rest[..|page|] == log[since..since + |page|];
  }

  lemma GaplessPosition(log: seq<Raw>, since: nat)
    requires since <= |log| && !Gaps(log)
    ensures SeqAt(log, since) == since
  {
    hide MessageSeq;
  }

  // Reading on in a log: the slice from the cursor grows by the page, also as seen in a later log.
  lemma SliceGrows(log: seq<Raw>, later: seq<Raw>, cursor: nat, raws: seq<Raw>, page: seq<Raw>)
    requires log <= later && cursor + |raws| + |page| <= |log|
    requires raws == log[cursor..cursor + |raws|]
    requires page == log[cursor + |raws|..cursor + |raws| + |page|]
    ensures var all := raws + page;
            cursor + |all| <= |later| && all == log[cursor..cursor + |all|] == later[cursor..cursor + |all|]
  {
  }

  lemma HonestLog(j: Job, t: Truth, k: nat)
    requires HonestMailbox(j, t)
    ensures IsLog(t.logs(k)) && !Gaps(t.logs(k)) && t.logs(k) <= t.logs(k + 1)
  {
    hide IsLog, Gaps, EntriesAfter;
  }

  // What an honest answer says about the log it was taken from.
  lemma HonestAnswer(j: Job, t: Truth, c: Scan, answer: Answer)
    requires HonestMailbox(j, t) && Answers(answer, j, c) && 0 <= c.since <= |t.logs(c.requests)|
    ensures var log := t.logs(c.requests);
            (answer.NotFound? ==> log == [])
            && (answer.Messages? ==>
                  var end := c.since + |answer.raws|;
                  end <= |log| && answer.raws == log[c.since..end]
                  && (|answer.raws| < j.lim.pageLimit ==> end == |log|))
    ensures t.logs(c.requests) <= t.logs(c.requests + 1)
  {
    hide Gapless, Gaps, EntriesAfter, IsLog;
    HonestLog(j, t, c.requests);
    PageOfMailbox(t.logs(c.requests), c.since, j.lim.pageLimit);
  }

  lemma ReadPage(j: Job, t: Truth, c: Scan, answer: Answer)
    requires Consistent(j, c) && ReadFrom(j, t, c.raws, c.requests) && Answers(answer, j, c) && answer.Messages?
    ensures ReadFrom(j, t, c.raws + answer.raws, c.requests + 1)
    ensures |answer.raws| < j.lim.pageLimit ==> ReadEverything(j, t, c.raws + answer.raws, c.requests + 1)
  {
    hide HonestMailbox, Answers, Gapless, ClassifyAll;
    if HonestMailbox(j, t) {
      HonestAnswer(j, t, c, answer);
      SliceGrows(t.logs(c.requests), t.logs(c.requests + 1), j.cursor, c.raws, answer.raws);
    }
  }

  lemma ReadNoPage(j: Job, t: Truth, c: Scan, answer: Answer)
    requires Consistent(j, c) && ReadFrom(j, t, c.raws, c.requests) && Answers(answer, j, c) && !answer.Messages?
    ensures answer.NotFound? ==> ReadEverything(j, t, c.raws, c.requests + 1)
    ensures answer.RetryLater? ==> ReadFrom(j, t, c.raws, c.requests + 1)
  {
    hide HonestMailbox, Answers, Gapless, ClassifyAll;
    if HonestMailbox(j, t) {
      HonestAnswer(j, t, c, answer);
      SliceStays(t.logs(c.requests), t.logs(c.requests + 1), j.cursor, c.raws);
    }
  }

  lemma SliceStays(log: seq<Raw>, later: seq<Raw>, cursor: nat, raws: seq<Raw>)
    requires log <= later && cursor + |raws| <= |log| && raws == log[cursor..cursor + |raws|]
    ensures cursor + |raws| <= |later| && raws == later[cursor..cursor + |raws|]
    ensures log == [] ==> cursor == 0 && raws == log[cursor..]
  {
  }

  // After full pages only, the next request is one that the log takes.
  lemma NextAnswer(j: Job, t: Truth, c: Scan)
    requires Undisturbed(j, t) && OnlyFullPages(j, t, c)
    ensures !j.slow(c.requests) && c.requests == c.pages && c.retries == 0
    ensures AnswersFrom(j.server(c.requests, c.since), t.logs(c.pages), c.since, j.lim.pageLimit, t.sizes(c.pages))
    ensures forall i :: 0 <= i < |t.logs(c.pages)| ==> t.logs(c.pages)[i].text.Some?
  {
    hide AnswersFrom, Honest, Gaps, FullPages;
    assert AnswersInTime(j, t, c.pages);
  }

  // Undisturbed, the answer is the next page or, beyond a limit on bytes, a failure.
  lemma PageOrOversized(j: Job, t: Truth, c: Scan, answer: Answer)
    requires Undisturbed(j, t) && Consistent(j, c) && OnlyFullPages(j, t, c) && Answers(answer, j, c)
    ensures var p, size, bytes := j.lim.pageLimit, t.sizes(c.pages), c.bytes + t.sizes(c.pages);
            BytesRead(j.server(c.requests, c.since), c.bytes) == bytes == TotalSize(t.sizes, c.pages + 1)
            && (if bytes > j.lim.maxBytes || size > MAX_RESPONSE_BYTES then answer.Failure?
                else answer.Messages? && |answer.raws| <= p && c.since + |answer.raws| <= |t.logs(c.pages)|
                     && (|answer.raws| < p ==> c.since + |answer.raws| == |t.logs(c.pages)|))
  {
    hide EntriesAfter, IsLog, ClassifyAll, Honest, FullPages;
    NextAnswer(j, t, c);
    HonestLog(j, t, c.pages);
    PageOfMailbox(t.logs(c.pages), c.since, j.lim.pageLimit);
    var page := j.server(c.requests, c.since).body.messages;
    assert forall i :: 0 <= i < |page| ==> page[i] == t.logs(c.pages)[c.since + i];
    assert Gapless(page, c.since);
  }

  lemma OversizedNeverCompletes(j: Job, t: Truth, c: Scan, requests: nat)
    requires Undisturbed(j, t) && OnlyFullPages(j, t, c)
    requires TotalSize(t.sizes, c.pages + 1) > j.lim.maxBytes || t.sizes(c.pages) > MAX_RESPONSE_BYTES
    ensures CompletesWhen(j, t, false, requests)
  {
    hide Honest, Gaps, TotalSize, AnswersInTime, FullPages;
    if TotalSize(t.sizes, c.pages + 1) > j.lim.maxBytes {
      StoppedNeverCompletes(t.logs, j.cursor, j.lim, t.sizes, c.pages);
    } else {
      forall k: nat | CompletesAt(t.logs, j.cursor, j.lim, t.sizes, k)
        ensures c.pages <= k
      {
        EndsOnce(t.logs, j.cursor, j.lim.pageLimit, c.pages, k);
      }
    }
  }

  lemma ShortPageCompletes(j: Job, t: Truth, c: Scan, rest: nat)
    requires Undisturbed(j, t) && Consistent(j, c) && OnlyFullPages(j, t, c)
    requires c.pages < j.lim.maxPages && c.items < j.lim.maxItems
    requires rest < j.lim.pageLimit && c.since + rest == |t.logs(c.pages)|
    requires TotalSize(t.sizes, c.pages + 1) <= j.lim.maxBytes && t.sizes(c.pages) <= MAX_RESPONSE_BYTES
    ensures CompletesWhen(j, t, true, c.pages + 1)
  {
    hide Honest, Gaps, ClassifyAll, TotalSize, AnswersInTime, FullPages;
    assert FitsAt(j, t, c.pages);
    forall k: nat | FitsAt(j, t, k)
      ensures k == c.pages
    {
      EndsOnce(t.logs, j.cursor, j.lim.pageLimit, c.pages, k);
    }
  }

  lemma FullPagesStep(j: Job, t: Truth, c: Scan, answer: Answer, c': Scan)
    requires Consistent(j, c) && OnlyFullPages(j, t, c) && Answers(answer, j, c)
    requires c.pages < j.lim.maxPages && c.items < j.lim.maxItems
    requires c'.requests == c.requests + 1 && c'.bytes == BytesRead(j.server(c.requests, c.since), c.bytes)
    requires answer.Messages? ==>
               c'.raws == c.raws + answer.raws && c'.pages == c.pages + 1
               && c'.items == c.items + |answer.raws| && c'.retries == c.retries
    ensures Undisturbed(j, t) ==>
              if answer.Messages? then |answer.raws| < j.lim.pageLimit ==> CompletesWhen(j, t, true, c'.requests)
              else answer.Failure? && CompletesWhen(j, t, false, c'.requests)
    ensures (answer.Messages? && |answer.raws| >= j.lim.pageLimit) || answer.RetryLater? ==> OnlyFullPages(j, t, c')
  {
    hide Answers, BytesRead, Gapless, ClassifyAll, HonestMailbox, AnswersInTime, CompletesWhen, TotalSize;
    if Undisturbed(j, t) {
      PageOrOversized(j, t, c, answer);
      NextAnswer(j, t, c);
      if !answer.Messages? {
        OversizedNeverCompletes(j, t, c, c'.requests);
      } else if |answer.raws| < j.lim.pageLimit {
        ShortPageCompletes(j, t, c, |answer.raws|);
      } else {
        assert (c.pages + 1) * j.lim.pageLimit == c.pages * j.lim.pageLimit + j.lim.pageLimit;
        LogsGrow(j, t, c.pages);
      }
    }
  }

  lemma LogsGrow(j: Job, t: Truth, k: nat)
    requires HonestMailbox(j, t)
    ensures |t.logs(k)| <= |t.logs(k + 1)|
  {
    assert t.logs(k) <= t.logs(k + 1);
  }

  lemma OutOfBudget(j: Job, t: Truth, c: Scan)
    requires OnlyFullPages(j, t, c) && Undisturbed(j, t)
    requires c.pages >= j.lim.maxPages || c.items >= j.lim.maxItems
    ensures CompletesWhen(j, t, false, c.requests)
  {
    hide Honest, Gaps, AnswersInTime, TotalSize, FullPages;
    StoppedNeverCompletes(t.logs, j.cursor, j.lim, t.sizes, c.pages);
  }

  lemma Appended(j: Job, c: Scan, page: seq<Raw>, found: seq<Item>, c': Scan)
    requires Consistent(j, c) && Gapless(page, c.since) && found == ClassifyAll(j.parse, j.active, page, c.since)
    requires c'.raws == c.raws + page && c'.classified == c.classified + found && c'.since == c.since + |page|
    ensures Consistent(j, c')
  {
    ClassifyAllConcat(j.parse, j.active, c.raws, page, j.cursor);
  }

  lemma NothingAppended(j: Job, c: Scan, c': Scan)
    requires Consistent(j, c) && c'.raws == c.raws && c'.classified == c.classified && c'.since == c.since
    ensures Consistent(j, c')
  {
  }

  // The loop variables after the answer to a request.
  function Advance(j: Job, c: Scan, answer: Answer, found: seq<Item>): Scan {
    var c1 := c.(requests := c.requests + 1, bytes := BytesRead(j.server(c.requests, c.since), c.bytes));
    match answer
    case Messages(page) =>
      c1.(raws := c.raws + page, classified := c.classified + found, since := c.since + |page|,
          pages := c.pages + 1, items := c.items + |page|)
    case RetryLater => c1.(retries := c.retries + 1)
    case _ => c1
  }

  // The exit taken after an answer, if any.
  function Exit(j: Job, c': Scan, answer: Answer): Option<Outcome> {
    match answer
    case Failure(f) => Some(Incomplete(f))
    case NotFound => Some(Complete(c'.classified, c'.since))
    case RetryLater => None
    case Messages(page) =>
      if |page| < j.lim.pageLimit then Some(Complete(c'.classified, c'.since))
      else if page == [] then Some(Incomplete("history_pagination_stalled"))
      else None
  }

  // A request adds the page that it was answered with, and nothing otherwise.
  lemma RequestHolds(j: Job, c: Scan, answer: Answer, found: seq<Item>)
    requires Consistent(j, c) && Holds(j, c) && Answers(answer, j, c)
    requires answer.Messages? || answer.NotFound? || answer.RetryLater?
    ensures Holds(j, Advance(j, c, answer, found))
    ensures answer.NotFound? || (answer.Messages? && |answer.raws| < j.lim.pageLimit) ==> EndsShort(j, c.requests + 1)
  {
    hide Judge, BytesRead, ClassifyAll, Gapless, Usable;
    var reply := j.server(c.requests, c.since);
    JudgeCases(reply, BytesRead(reply, c.bytes), j.lim.maxBytes, c.retries);
    assert c.raws + [] == c.raws;
  }

  lemma RequestFails(j: Job, c: Scan, answer: Answer, found: seq<Item>)
    requires Consistent(j, c) && Holds(j, c) && Answers(answer, j, c) && answer.Failure?
    ensures FailsWith(j, Advance(j, c, answer, found), answer.classification)
  {
    hide Judge, BytesRead, ClassifyAll, Gapless, PageFails;
  }

  lemma PageGood(j: Job, t: Truth, c: Scan, answer: Answer, found: seq<Item>)
    requires Good(j, t, c) && Answers(answer, j, c) && answer.Messages?
    requires c.pages < j.lim.maxPages && c.items < j.lim.maxItems && 1 <= j.lim.pageLimit <= MAX_PAGE_LIMIT
    requires Gapless(answer.raws, c.since) && found == ClassifyAll(j.parse, j.active, answer.raws, c.since)
    ensures var c' := Advance(j, c, answer, found);
            match Exit(j, c', answer)
            case None => Good(j, t, c')
            case Some(r) => Finished(j, t, c', r)
  {
    var c' := Advance(j, c, answer, found);
    hide Undisturbed, ReadFrom, ReadEverything, CompletesWhen, OnlyFullPages, ClassifyAll, Gapless, BytesRead, Answers,
         Consistent, Before, EndsShort, FailsWith;
    ReadPage(j, t, c, answer);
    RequestHolds(j, c, answer, found);
    FullPagesStep(j, t, c, answer, c');
    Appended(j, c, answer.raws, found, c');
    var exit := Exit(j, c', answer);
    if exit.Some? {
      hide Good;
      ExitFinished(j, t, c', answer, exit.value);
    }
  }

  lemma NoPageGood(j: Job, t: Truth, c: Scan, answer: Answer, found: seq<Item>)
    requires Good(j, t, c) && Answers(answer, j, c) && !answer.Messages?
    requires c.pages < j.lim.maxPages && c.items < j.lim.maxItems && 1 <= j.lim.pageLimit <= MAX_PAGE_LIMIT
    ensures var c' := Advance(j, c, answer, found);
            match Exit(j, c', answer)
            case None => Good(j, t, c') && c'.retries > c.retries
            case Some(r) => Finished(j, t, c', r)
  {
    var c' := Advance(j, c, answer, found);
    hide Undisturbed, ReadFrom, ReadEverything, CompletesWhen, OnlyFullPages, ClassifyAll, Gapless, BytesRead, Answers,
         Consistent, Before, EndsShort, FailsWith;
    ReadNoPage(j, t, c, answer);
    if answer.Failure? {
      RequestFails(j, c, answer, found);
    } else {
      RequestHolds(j, c, answer, found);
    }
    FullPagesStep(j, t, c, answer, c');
    RetryOnce(j, c, answer);
    NothingAppended(j, c, c');
    var exit := Exit(j, c', answer);
    if exit.Some? {
      ExitFinished(j, t, c', answer, exit.value);
    }
  }

  lemma ExitFinished(j: Job, t: Truth, c': Scan, answer: Answer, r: Outcome)
    requires Consistent(j, c') && 1 <= j.lim.pageLimit <= MAX_PAGE_LIMIT
    requires Exit(j, c', answer) == Some(r) && (answer.Messages? ==> |answer.raws| < j.lim.pageLimit)
    requires answer.NotFound? || answer.Messages? ==> ReadEverything(j, t, c'.raws, c'.requests) && Holds(j, c')
    requires answer.NotFound? || answer.Messages? ==> EndsShort(j, c'.requests)
    requires answer.Failure? ==> FailsWith(j, c', answer.classification)
    requires Undisturbed(j, t) ==>
               if answer.Messages? then CompletesWhen(j, t, true, c'.requests)
               else answer.Failure? && CompletesWhen(j, t, false, c'.requests)
    ensures Finished(j, t, c', r)
  {
    hide Undisturbed, ReadFrom, ReadEverything, CompletesWhen, ClassifyAll, Gapless;
  }

  lemma RetryOnce(j: Job, c: Scan, answer: Answer)
    requires Answers(answer, j, c)
    ensures answer.RetryLater? ==> c.retries < 1
  {
  }

  // One request of the poll: reply, judgement and, for a page, its classification.
  method Request(j: Job, c: Scan) returns (answer: Answer, found: seq<Item>)
    ensures Answers(answer, j, c)
    ensures answer.Messages? ==>
              Gapless(answer.raws, c.since) && found == ClassifyAll(j.parse, j.active, answer.raws, c.since)
  {
    var reply := j.server(c.requests, c.since);
    answer := Judge(reply, BytesRead(reply, c.bytes), j.lim.maxBytes, c.retries);
    found := [];
    if answer.Messages? {
      var failure, maxSeq;
      failure, found, maxSeq := ClassifyPage(j.parse, j.active, answer.raws, c.since);
      if failure.Some? {
        answer := Failure(failure.value);
      }
    }
  }

  // poll_mailbox up to the store.
  method Poll(j: Job, ghost t: Truth) returns (r: Outcome, c: Scan)
    ensures Finished(j, t, c, r)
    ensures r.Unsupported? <==>
              j.lim.maxPages > 0 && j.lim.maxItems > 0 && !j.slow(0) && !(1 <= j.lim.pageLimit <= MAX_PAGE_LIMIT)
    // At most one request more than pages, for the single retry after a 429.
    ensures c.requests <= if j.lim.maxPages > 0 then j.lim.maxPages + 1 else 0
  {
    c := Scan([], [], j.cursor, 0, 0, 0, 0, 0);
    assert Good(j, t, c);
    hide Good, Finished, OnlyFullPages, Answers, Gapless, ClassifyAll, BytesRead, CompletesWhen, Undisturbed;
    while c.pages < j.lim.maxPages && c.items < j.lim.maxItems
      invariant Good(j, t, c) && c.requests == c.pages + c.retries && c.retries <= 1
      invariant c.requests == 0 || (c.pages <= j.lim.maxPages && j.lim.maxPages > 0)
      invariant if c.requests == 0 then c.pages == c.items == 0 else 1 <= j.lim.pageLimit <= MAX_PAGE_LIMIT
      decreases j.lim.maxPages - c.pages, 1 - c.retries
    {
      if j.slow(c.requests) {
        r := Incomplete("mailbox_poll_timeout");
        TooSlow(j, t, c, r);
        return;
      }
      if !(1 <= j.lim.pageLimit <= MAX_PAGE_LIMIT) {
        r := Unsupported("mailbox history limit is outside the supported bound");
        BadLimit(j, t, c, r);
        return;
      }
      var answer, found := Request(j, c);
      if answer.Messages? {
        PageGood(j, t, c, answer, found);
      } else {
        NoPageGood(j, t, c, answer, found);
      }
      c := Advance(j, c, answer, found);
      var exit := Exit(j, c, answer);
      if exit.Some? {
        RetryBound(j, t, c);
        return exit.value, c;
      }
      RetryBound(j, t, c);
    }
    r := Incomplete("history_scan_incomplete");
    RanOut(j, t, c, r);
  }

  lemma RetryBound(j: Job, t: Truth, c: Scan)
    ensures Good(j, t, c) ==> c.requests == c.pages + c.retries && c.retries <= 1
  {
  }

  lemma TooSlow(j: Job, t: Truth, c: Scan, r: Outcome)
    requires Good(j, t, c) && j.slow(c.requests) && r == Incomplete("mailbox_poll_timeout")
    requires c.pages < j.lim.maxPages && c.items < j.lim.maxItems
    ensures Finished(j, t, c, r)
  {
    if Undisturbed(j, t) {
      NextAnswer(j, t, c);
    }
  }

  lemma BadLimit(j: Job, t: Truth, c: Scan, r: Outcome)
    requires !(1 <= j.lim.pageLimit <= MAX_PAGE_LIMIT) && r.Unsupported?
    ensures Finished(j, t, c, r)
  {
  }

  lemma RanOut(j: Job, t: Truth, c: Scan, r: Outcome)
    requires Good(j, t, c) && r == Incomplete("history_scan_incomplete")
    requires c.pages >= j.lim.maxPages || c.items >= j.lim.maxItems
    ensures Finished(j, t, c, r)
  {
    if Undisturbed(j, t) {
      OutOfBudget(j, t, c);
    }
  }

  lemma FinishedMeans(j: Job, t: Truth, c: Scan, r: Outcome)
    requires Finished(j, t, c, r)
    ensures Undisturbed(j, t) ==> (r.Complete? <==> CanComplete(j, t))
    ensures r.Complete? ==> ReadEverything(j, t, c.raws, c.requests)
  {
    hide Undisturbed, ReadEverything, Gapless, ClassifyAll, FitsAt;
    if Undisturbed(j, t) && r.Complete? {
      SomeRequest(j, t, c, r);
      assert FitsAt(j, t, c.requests - 1);
    }
  }

  // A poll completes at a request of its own.
  lemma SomeRequest(j: Job, t: Truth, c: Scan, r: Outcome)
    requires Finished(j, t, c, r) && r.Complete? && Undisturbed(j, t)
    ensures c.requests > 0
  {
    hide CompletesWhen, Gapless, ClassifyAll, AnswersInTime;
  }

  // For a log that stands still while it is polled, that is exactly when the n unread messages fit the limits: n/p
  // below the page limit, p times n/p below the item limit, and the n/p + 1 replies within the byte limits.
  lemma StillLogCompletes(j: Job, t: Truth)
    requires HonestMailbox(j, t)
    requires forall k: nat :: k <= (|t.logs(0)| - j.cursor) / j.lim.pageLimit ==> |t.logs(k)| == |t.logs(0)|
    ensures var n: nat := |t.logs(0)| - j.cursor;
            CanComplete(j, t) <==>
              Fits(n, j.lim) && WithinBytes(n, j.lim, t.sizes)
              && forall k: nat :: k <= n / j.lim.pageLimit ==> t.sizes(k) <= MAX_RESPONSE_BYTES
  {
    hide Honest, Gaps, Fits, WithinBytes, CompletesAt;
    var q: nat := (|t.logs(0)| - j.cursor) / j.lim.pageLimit;
    StillLogEnds(t.logs, j.cursor, j.lim.pageLimit, q);
    StandingStill(t.logs, j.cursor, j.lim, t.sizes);
    forall k: nat | CompletesAt(t.logs, j.cursor, j.lim, t.sizes, k)
      ensures k == q
    {
      CompletesAtEnd(j, t, k);
      EndTwice(t.logs, j.cursor, j.lim.pageLimit, k, q);
    }
    if k: nat :| FitsAt(j, t, k) {
      assert CompletesAt(t.logs, j.cursor, j.lim, t.sizes, k);
    }
    if k: nat :| CompletesAt(t.logs, j.cursor, j.lim, t.sizes, k) {
      assert k == q && (FitsAt(j, t, q) <==> forall n: nat :: n <= q ==> t.sizes(n) <= MAX_RESPONSE_BYTES);
    }
  }

  lemma CompletesAtEnd(j: Job, t: Truth, k: nat)
    requires CompletesAt(t.logs, j.cursor, j.lim, t.sizes, k)
    ensures EndsAt(t.logs, j.cursor, j.lim.pageLimit, k)
  {
  }

  lemma CompleteMeans(j: Job, t: Truth, c: Scan, r: Outcome)
    requires Finished(j, t, c, r) && r.Complete?
    ensures Gapless(c.raws, j.cursor) && r.items == ClassifyAll(j.parse, j.active, c.raws, j.cursor)
    ensures r.cursor == j.cursor + |c.raws|
  {
    hide Gapless, ClassifyAll;
  }

  // What a completed poll stores is settled by the log, the cursor and the new cursor: page size, retries and
  // the pace of the log leave no trace.
  lemma PageSizeIrrelevant(j: Job, t: Truth, c: Scan, r: Outcome, j': Job, t': Truth, c': Scan, r': Outcome)
    requires Finished(j, t, c, r) && Finished(j', t', c', r') && HonestMailbox(j, t) && HonestMailbox(j', t')
    requires r.Complete? && r'.Complete? && r.cursor == r'.cursor
    requires j.cursor == j'.cursor && j.active == j'.active && j.parse == j'.parse
    requires t.logs(c.requests - 1) <= t'.logs(c'.requests - 1) || t'.logs(c'.requests - 1) <= t.logs(c.requests - 1)
    ensures r == r'
  {
    hide ClassifyAll, Gapless;
    assert c.raws == c'.raws;
  }
}
