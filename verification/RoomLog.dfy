// Room messages as Technocore returns them, and the server that returns them in pages.
module RoomLog {
  import opened Common
  import Preimage

  const MAX_NONCE := 9_999_999_999_999_999_999  // 19 decimal digits

  // The JSON value of "nonce": an integer, or anything else (bool, string, float, missing).
  datatype NonceField = IntegerNonce(value: int) | OtherValue

  // A decoded message; `number` is its "seq": what int(value) yields, None when that raises or the value is missing.
  datatype Raw = Raw(number: Option<int>, sender: Option<string>, nonce: NonceField, text: Option<string>)

  datatype Message = Message(number: Option<int>, sender: string, nonce: Option<int>, text: Option<string>)

  // posting.message_seq
  function MessageSeq(raw: Raw): (r: Option<int>)
    ensures r.Some? <==> raw.number.Some? && raw.number.value > 0
    ensures r.Some? ==> r == raw.number
  {
    if raw.number.Some? && raw.number.value > 0 then raw.number else None
  }

  // posting.message_nonce
  function ReadNonce(field: NonceField): (r: Option<int>)
    ensures r.Some? ==> 0 < r.value <= MAX_NONCE
  {
    if field.IntegerNonce? && 0 < field.value <= MAX_NONCE then Some(field.value) else None
  }

  // That is a positive integer of at most 19 decimal digits, taken as it is.
  lemma NonceHasDigits(field: NonceField)
    ensures ReadNonce(field).Some? <==>
              field.IntegerNonce? && field.value > 0 && |Preimage.Decimal(field.value)| <= 19
    ensures ReadNonce(field).Some? ==> ReadNonce(field) == Some(field.value)
  {
    hide Preimage.Decimal;
    if field.IntegerNonce? && field.value > 0 {
      Preimage.DecimalLength(field.value, 19);
      TenToNineteen();
    }
  }

  lemma TenToNineteen()
    ensures Preimage.Pow10(19) == MAX_NONCE + 1
  {
    assert Preimage.Pow10(5) == 100_000;
    assert Preimage.Pow10(10) == 10_000_000_000;
    assert Preimage.Pow10(15) == 1_000_000_000_000_000;
  }

  // posting.canonical_room_message
  function Canonical(raw: Raw): Message {
    Message(MessageSeq(raw), if raw.sender.Some? then raw.sender.value else "unknown", ReadNonce(raw.nonce), raw.text)
  }

  function CanonicalAll(raws: seq<Raw>): (ms: seq<Message>)
    ensures |ms| == |raws|
    ensures forall i :: 0 <= i < |raws| ==> ms[i] == Canonical(raws[i])
  {
    seq(|raws|, i requires 0 <= i < |raws| => Canonical(raws[i]))
  }

  datatype Body = NotAnObject | Page(messages: seq<Raw>)

  datatype Reply =
    | Unreachable(failure: string)
    | Response(redirected: bool, size: nat, status: int, body: Body)

  // An arbitrary server: its answer may depend on the request number and on the `since` asked for.
  type Server = (nat, int) -> Reply

  // ---- Honest servers: pages of an append-only log that may grow between requests ----

  // Sequence numbers are positive and strictly increasing.
  ghost predicate IsLog(log: seq<Raw>) {
    (forall i :: 0 <= i < |log| ==> MessageSeq(log[i]).Some?)
    && forall i, j :: 0 <= i < j < |log| ==> MessageSeq(log[i]).value < MessageSeq(log[j]).value
  }

  function EntriesAfter(log: seq<Raw>, since: int): seq<Raw> {
    if log == [] then []
    else
      var rest := EntriesAfter(log[1..], since);
      if MessageSeq(log[0]).Some? && MessageSeq(log[0]).value > since then [log[0]] + rest else rest
  }

  function Take(s: seq<Raw>, n: nat): seq<Raw> {
    if |s| <= n then s else s[..n]
  }

  ghost predicate Honest(server: Server, limit: nat, logs: nat -> seq<Raw>) {
    (forall k: nat :: IsLog(logs(k)))
    && (forall k: nat, k': nat :: k <= k' ==> logs(k) <= logs(k'))
    && (forall k: nat, since: int :: server(k, since).Response? ==> (
          (server(k, since).status == 200 ==>
             server(k, since).body == Page(Take(EntriesAfter(logs(k), since), limit)))
          && (server(k, since).status == 404 ==> logs(k) == [])))
  }

  // The position reached after reading the first c entries.
  function SeqAt(log: seq<Raw>, c: nat): int
    requires c <= |log|
  {
    if c == 0 || MessageSeq(log[c - 1]).None? then 0 else MessageSeq(log[c - 1]).value
  }

  lemma {:induction false} EntriesAfterAll(log: seq<Raw>, since: int)
    requires IsLog(log) && forall i :: 0 <= i < |log| ==> MessageSeq(log[i]).value > since
    ensures EntriesAfter(log, since) == log
  {
    if log == [] {
    } else {
      EntriesAfterAll(log[1..], since);
    }
  }

  lemma {:induction false} EntriesAfterPrefix(log: seq<Raw>, c: nat)
    requires IsLog(log) && c <= |log|
    ensures EntriesAfter(log, SeqAt(log, c)) == log[c..]
  {
    DropRead(log, c, SeqAt(log, c));
  }

  lemma {:induction false} DropRead(log: seq<Raw>, c: nat, since: int)
    requires IsLog(log) && c <= |log|
    requires forall i :: 0 <= i < c ==> MessageSeq(log[i]).value <= since
    requires forall i :: c <= i < |log| ==> MessageSeq(log[i]).value > since
    ensures EntriesAfter(log, since) == log[c..]
  {
    if c == 0 {
      EntriesAfterAll(log, since);
    } else {
      DropRead(log[1..], c - 1, since);
      assert log[1..][c - 1..] == log[c..];
    }
  }
}
