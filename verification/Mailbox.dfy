// Mailbox polling: classification and the bounded paged read (src/flop_bench/mailbox.py).
module Mailbox {
  import opened Common
  import opened Paging
  import opened RoomLog
  import Base58

  // The fields of an accepted envelope; `body` is its canonical JSON text.
  datatype Request = Request(id: string, capability: string, expiresAt: int, body: string)

  // parse_mailbox_envelope for one sender at one time: acceptance, or the classification of the rejection.
  datatype Parsed = Accepted(request: Request) | Refused(reason: string)

  type Parser = (string, string) -> Parsed

  datatype Classification = ValidRequest | IntakeInactive | DuplicateRequestId | Malformed | Invalid(reason: string)

  datatype Review = PendingHumanReview | ApprovedForManualExecution | Rejected

  datatype Item = Item(
    number: int, sender: Option<string>, nonce: Option<int>, text: string, serverVerified: bool,
    requestId: Option<string>, request: Option<Request>, classification: Classification, review: Review)

  // classify_authentication
  function VerifiedSender(raw: Raw): Option<string> {
    if raw.sender.Some? && Base58.IsValidEd25519Did(raw.sender.value) then raw.sender else None
  }

  // classify_mailbox_message; None stands for the ValidationError on a missing sequence number or text.
  function Classify(parse: Parser, raw: Raw): (r: Option<Item>)
    ensures r.Some? <==> MessageSeq(raw).Some? && raw.text.Some?
    ensures r.Some? ==> r.value.number == MessageSeq(raw).value
  {
    var number := MessageSeq(raw);
    if number.None? || raw.text.None? then None
    else
      var sender := VerifiedSender(raw);
      var nonce := ReadNonce(raw.nonce);
      var base := Item(number.value, sender, nonce, raw.text.value, false, None, None, Malformed, Rejected);
      if sender.None? || nonce.None? then Some(base)
      else
        match parse(raw.text.value, sender.value)
        case Refused(reason) => Some(base.(serverVerified := true, classification := Invalid(reason)))
        case Accepted(q) =>
          Some(base.(serverVerified := true, requestId := Some(q.id), request := Some(q),
                     classification := ValidRequest, review := PendingHumanReview))
  }

  // _inactive_mailbox_message
  function Deactivate(item: Item): Item {
    if item.classification == ValidRequest
    then item.(classification := IntakeInactive, review := Rejected) else item
  }

  function ClassifyFor(parse: Parser, active: bool, raw: Raw): Item
    requires Classify(parse, raw).Some?
  {
    var item := Classify(parse, raw).value;
    if active then item else Deactivate(item)
  }

  // The message is a request that Bench takes: sender and nonce verify it, and it parses for that sender.
  predicate Qualifies(parse: Parser, raw: Raw) {
    raw.sender.Some? && Base58.IsValidEd25519Did(raw.sender.value) && ReadNonce(raw.nonce).Some?
    && raw.text.Some? && parse(raw.text.value, raw.sender.value).Accepted?
  }

  // Activation decides about such messages only: they become valid requests under active intake, and inactive,
  // rejected ones with the same request otherwise. Everything else is classified alike with and without intake.
  lemma ClassifyForCases(parse: Parser, active: bool, raw: Raw)
    requires Classify(parse, raw).Some?
    ensures var item := ClassifyFor(parse, active, raw);
            var plain := Classify(parse, raw).value;
            (item.classification == ValidRequest <==> active && Qualifies(parse, raw))
            && (item.classification == IntakeInactive <==> !active && Qualifies(parse, raw))
            && (item.review == PendingHumanReview <==> active && Qualifies(parse, raw))
            && (item.review == Rejected <==> !active || !Qualifies(parse, raw))
            && item.request == (if Qualifies(parse, raw)
                                then Some(parse(raw.text.value, raw.sender.value).request) else None)
            && item == plain.(classification := item.classification, review := item.review)
            && (active || !Qualifies(parse, raw) ==> item == plain)
  {
    hide Base58.IsValidEd25519Did;
  }

  // What a poll may hand over for storage, whatever the server sent.
  predicate WellClassified(item: Item) {
    (item.request.Some? <==> item.classification == ValidRequest || item.classification == IntakeInactive)
    && item.requestId == (if item.request.Some? then Some(item.request.value.id) else None)
    && item.classification != DuplicateRequestId
    && item.review == (if item.classification == ValidRequest then PendingHumanReview else Rejected)
  }

  lemma ClassifyForWell(parse: Parser, active: bool, raw: Raw)
    requires Classify(parse, raw).Some?
    ensures WellClassified(ClassifyFor(parse, active, raw))
    ensures ClassifyFor(parse, active, raw).number == MessageSeq(raw).value
  {
    hide Base58.IsValidEd25519Did;
  }

  // The messages after `since` in gapless order, all classifiable.
  predicate Gapless(raws: seq<Raw>, since: int) {
    forall i :: 0 <= i < |raws| ==> MessageSeq(raws[i]) == Some(since + 1 + i) && raws[i].text.Some?
  }

  function ClassifyAll(parse: Parser, active: bool, raws: seq<Raw>, since: int): (items: seq<Item>)
    requires Gapless(raws, since)
    ensures |items| == |raws|
  {
    seq(|raws|, i requires 0 <= i < |raws| => ClassifyFor(parse, active, raws[i]))
  }

  lemma ClassifyAllWell(parse: Parser, active: bool, raws: seq<Raw>, since: int)
    requires Gapless(raws, since)
    ensures var items := ClassifyAll(parse, active, raws, since);
            forall i :: 0 <= i < |items| ==>
              items[i].number == since + 1 + i && WellClassified(items[i])
              && items[i] == ClassifyFor(parse, active, raws[i])
  {
    hide ClassifyFor, WellClassified, MessageSeq;
    forall i | 0 <= i < |raws|
      ensures var item := ClassifyFor(parse, active, raws[i]);
              item.number == since + 1 + i && WellClassified(item)
    {
      ClassifyForWell(parse, active, raws[i]);
    }
  }

  datatype Answer = Messages(raws: seq<Raw>) | NotFound | RetryLater | Failure(classification: string)

  // The checks between a reply and its messages.
  function Judge(reply: Reply, bytes: nat, maxBytes: int, retries: nat): Answer {
    if reply.Unreachable? then Failure(reply.failure)
    else if reply.redirected then Failure("redirect_rejected")
    else if bytes > maxBytes || reply.size > MAX_RESPONSE_BYTES then Failure("oversized_response")
    else if reply.status == 404 then NotFound
    else if reply.status == 429 && retries < 1 then RetryLater
    else if reply.status != 200 then
      Failure(if reply.status == 408 || reply.status == 429 || reply.status >= 500
              then "remote_unavailable" else "http_status_error")
    else if reply.body.NotAnObject? then Failure("malformed_response")
    else Messages(reply.body.messages)
  }

  // A direct reply within the limits on bytes.
  predicate Usable(reply: Reply, bytes: nat, maxBytes: int) {
    reply.Response? && !reply.redirected && bytes <= maxBytes && reply.size <= MAX_RESPONSE_BYTES
  }

  // What a usable reply is taken for, by its status; nothing else is read, and a 429 is retried once.
  lemma JudgeCases(reply: Reply, bytes: nat, maxBytes: int, retries: nat)
    ensures var a := Judge(reply, bytes, maxBytes, retries);
            var usable := Usable(reply, bytes, maxBytes);
            (a.Messages? <==> usable && reply.status == 200 && reply.body.Page?)
            && (a.Messages? ==> reply.body == Page(a.raws))
            && (a.NotFound? <==> usable && reply.status == 404)
            && (a.RetryLater? <==> usable && reply.status == 429 && retries == 0)
            && (reply.Unreachable? ==> a == Failure(reply.failure))
            && (reply.Response? ==>
                  (a == Failure("redirect_rejected") <==> reply.redirected)
                  && (a == Failure("oversized_response") <==> !reply.redirected && !usable)
                  && (a == Failure("malformed_response") <==> usable && reply.status == 200 && reply.body.NotAnObject?)
                  && (a == Failure("remote_unavailable") <==>
                        usable && (reply.status == 408 || (reply.status == 429 && retries > 0) || 500 <= reply.status)))
  {
  }

  // Message i is the first that a page cannot go on with: its number is not the next one.
  predicate GapAt(raws: seq<Raw>, since: int, i: nat) {
    i < |raws| && Gapless(raws[..i], since) && MessageSeq(raws[i]).Some? && MessageSeq(raws[i]).value != since + 1 + i
  }

  // Or it has no number, or no text.
  predicate MalformedAt(raws: seq<Raw>, since: int, i: nat) {
    i < |raws| && Gapless(raws[..i], since)
    && (MessageSeq(raws[i]).None? || (MessageSeq(raws[i]).value == since + 1 + i && raws[i].text.None?))
  }

  ghost predicate PageFails(raws: seq<Raw>, since: int, failure: string) {
    (failure == "sequence_gap" && exists i :: GapAt(raws, since, i))
    || (failure == "malformed_response" && exists i :: MalformedAt(raws, since, i))
  }

  // The inner loop over one page.
  method ClassifyPage(parse: Parser, active: bool, raws: seq<Raw>, since: int)
    returns (failure: Option<string>, items: seq<Item>, maxSeq: int)
    ensures failure.None? <==> Gapless(raws, since)
    ensures failure.Some? ==> PageFails(raws, since, failure.value)
    ensures failure.None? ==> items == ClassifyAll(parse, active, raws, since) && maxSeq == since + |raws|
  {
    failure, items, maxSeq := None, [], since;
    hide ClassifyFor, MessageSeq;
    for i := 0 to |raws|
      invariant Gapless(raws[..i], since) && failure.None?
      invariant items == ClassifyAll(parse, active, raws[..i], since)
      invariant maxSeq == since + i
    {
      var number := MessageSeq(raws[i]);
      if number.None? {
        assert MalformedAt(raws, since, i);
        return Some("malformed_response"), items, maxSeq;
      }
      if number.value != since + 1 + i {
        assert GapAt(raws, since, i);
        return Some("sequence_gap"), items, maxSeq;
      }
      maxSeq := number.value;
      var item := Classify(parse, raws[i]);
      if item.None? {
        assert MalformedAt(raws, since, i);
        return Some("malformed_response"), items, maxSeq;
      }
      items := items + [if active then item.value else Deactivate(item.value)];
      ClassifyAllNext(parse, active, raws, since, i);
    }
    assert raws[..|raws|] == raws;
  }

  lemma ClassifyAllNext(parse: Parser, active: bool, raws: seq<Raw>, since: int, i: nat)
    requires i < |raws| && Gapless(raws[..i], since)
    requires MessageSeq(raws[i]) == Some(since + 1 + i) && raws[i].text.Some?
    ensures Gapless(raws[..i + 1], since)
    ensures var item := Classify(parse, raws[i]).value;
            ClassifyAll(parse, active, raws[..i + 1], since)
            == ClassifyAll(parse, active, raws[..i], since) + [if active then item else Deactivate(item)]
  {
    assert raws[..i + 1][..i] == raws[..i];
    hide Classify, Deactivate;
  }

  lemma ClassifyAllConcat(parse: Parser, active: bool, raws: seq<Raw>, page: seq<Raw>, since: int)
    requires Gapless(raws, since) && Gapless(page, since + |raws|)
    ensures Gapless(raws + page, since)
    ensures ClassifyAll(parse, active, raws + page, since)
            == ClassifyAll(parse, active, raws, since) + ClassifyAll(parse, active, page, since + |raws|)
  {
    hide ClassifyFor, Classify;
  }

  // What the classifications say: verified means a did:key sender that names a 32-byte key, and a nonce; a valid
  // request is a verified message that parses for that very sender.
  lemma ClassificationMeans(parse: Parser, raw: Raw, item: Item)
    requires Classify(parse, raw) == Some(item)
    ensures item.serverVerified <==>
              raw.sender.Some? && ReadNonce(raw.nonce).Some?
              && exists key: seq<Byte> :: |key| == Base58.KEY_BYTES && raw.sender.value == Base58.PublicDid(key)
    ensures item.sender.Some? <==>
              raw.sender.Some?
              && exists key: seq<Byte> :: |key| == Base58.KEY_BYTES && raw.sender.value == Base58.PublicDid(key)
    ensures item.sender.Some? ==> item.sender == raw.sender
    ensures item.classification == Malformed <==> !item.serverVerified
    ensures item.serverVerified ==>
              match parse(item.text, raw.sender.value)
              case Accepted(_) => item.classification == ValidRequest
              case Refused(reason) => item.classification == Invalid(reason)
    ensures item.classification == ValidRequest <==>
              item.serverVerified && parse(item.text, raw.sender.value).Accepted?
    ensures item.classification == ValidRequest ==>
              item.request == Some(parse(item.text, raw.sender.value).request)
    ensures Some(item.text) == raw.text && item.nonce == ReadNonce(raw.nonce)
  {
    hide Base58.IsValidEd25519Did, Base58.PublicDid;
    if raw.sender.Some? {
      Base58.ValidDidsAreImagesOfKeys(raw.sender.value);
    }
  }
}
