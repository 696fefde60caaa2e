// Byte strings that FLOP Bench signs, and the verifier that checks their field order
// (src/flop_bench/posting.py, activation.py, protocol.py, verification.py).
module Preimage {
  import opened Common
  import opened Numerals

  const CANONICAL_ROOM := "d-flop-bench"
  const MAILBOX_PREFIX := "mb-"
  const MAX_MAILBOX_NAME := 128

  predicate NoBar(s: string) {
    '|' !in s
  }

  function Fields(first: string, rest: string): string {
    first + "|" + rest
  }

  function DigitChars(ds: seq<nat>): (s: string)
    requires Digits(ds, 10)
    ensures |s| == |ds|
  {
    seq(|ds|, i requires 0 <= i < |ds| => '0' + ds[i] as char)
  }

  // The decimal text of an integer.
  function Decimal(n: int): string {
    if n == 0 then "0"
    else if n > 0 then DigitChars(FromNat(n, 10))
    else "-" + DigitChars(FromNat(-n, 10))
  }

  // Digits, with no superfluous zero in front.
  predicate IsNumeral(s: string) {
    s != [] && (forall i :: 0 <= i < |s| ==> '0' <= s[i] <= '9') && (s[0] == '0' ==> |s| == 1)
  }

  // The number that a digit string denotes in base ten.
  function Value(s: string): int {
    if s == [] then 0 else 10 * Value(s[..|s| - 1]) + (s[|s| - 1] as int - '0' as int)
  }

  lemma {:induction false} ValueOfDigits(ds: seq<nat>)
    requires Digits(ds, 10)
    ensures Value(DigitChars(ds)) == ToNat(ds, 10)
  {
    if ds == [] {
    } else {
      assert DigitChars(ds)[..|ds| - 1] == DigitChars(ds[..|ds| - 1]);
      ValueOfDigits(ds[..|ds| - 1]);
    }
  }

  // The decimal text of a number is a numeral that denotes it; a negative one carries a minus sign in front.
  lemma DecimalReads(n: int)
    ensures n >= 0 ==> IsNumeral(Decimal(n)) && Value(Decimal(n)) == n
    ensures n < 0 ==> Decimal(n) == "-" + Decimal(-n)
  {
    if n > 0 {
      var ds := FromNat(n, 10);
      ToNatOfFromNat(n, 10);
      ValueOfDigits(ds);
      assert DigitChars(ds)[0] == '0' + ds[0] as char;
    } else if n == 0 {
      assert "0"[..0] == [];
    }
  }

  // It is the only numeral that does.
  lemma NumeralReads(s: string)
    requires IsNumeral(s)
    ensures Value(s) >= 0 && Decimal(Value(s)) == s
  {
    var ds: seq<nat> := seq(|s|, i requires 0 <= i < |s| => s[i] as int - '0' as int);
    assert DigitChars(ds) == s;
    ValueOfDigits(ds);
    if s[0] == '0' {
      assert s == "0" && s[..0] == [];
    } else {
      FromNatOfToNat(ds, 10);
      ToNatPositive(ds, 10);
    }
  }

  function Pow10(d: nat): (r: nat)
    ensures r >= 1
  {
    if d == 0 then 1 else 10 * Pow10(d - 1)
  }

  lemma {:induction false} DigitCount(n: nat, d: nat)
    ensures |FromNat(n, 10)| <= d <==> n < Pow10(d)
    decreases d
  {
    if d == 0 || n == 0 {
    } else {
      DigitCount(n / 10, d - 1);
    }
  }

  // A positive number has at most d decimal digits exactly when it is below ten to the power of d.
  lemma DecimalLength(n: int, d: nat)
    requires n > 0
    ensures |Decimal(n)| <= d <==> n < Pow10(d)
  {
    DigitCount(n, d);
  }

  predicate NameChar(c: char) {
    'a' <= c <= 'z' || '0' <= c <= '9' || c == '-'
  }

  // The pattern of canonical mailbox rooms: mb- and a name of 1 to 128 characters without edge hyphens.
  predicate IsMailboxRoom(room: string) {
    MAILBOX_PREFIX <= room && IsMailboxName(room[|MAILBOX_PREFIX|..])
  }

  predicate IsMailboxName(name: string) {
    1 <= |name| <= MAX_MAILBOX_NAME
    && (forall i :: 0 <= i < |name| ==> NameChar(name[i]))
    && name[0] != '-' && name[|name| - 1] != '-'
  }

  // The same as a pattern: mb-, a letter or digit, and perhaps up to 126 name characters and another letter or digit.
  ghost predicate MatchesPattern(room: string) {
    exists first: char, rest: string :: room == "mb-" + [first] + rest && IsName(first, rest)
  }

  predicate IsName(first: char, rest: string) {
    ('a' <= first <= 'z' || '0' <= first <= '9')
    && (rest == "" || (|rest| <= 127 && NameChars(rest[..|rest| - 1]) && NameEnd(rest[|rest| - 1])))
  }

  predicate NameChars(s: string) {
    forall i :: 0 <= i < |s| ==> 'a' <= s[i] <= 'z' || '0' <= s[i] <= '9' || s[i] == '-'
  }

  predicate NameEnd(c: char) {
    'a' <= c <= 'z' || '0' <= c <= '9'
  }

  lemma NameMatches(first: char, rest: string)
    ensures IsMailboxName([first] + rest) <==> IsName(first, rest)
  {
    var name := [first] + rest;
    if IsMailboxName(name) && rest != "" {
      var inner := rest[..|rest| - 1];
      forall i | 0 <= i < |inner|
        ensures NameChar(inner[i])
      {
        assert NameChar(name[i + 1]);
      }
      assert NameChar(name[|rest|]) && rest[|rest| - 1] == name[|rest|];
    }
    if IsName(first, rest) {
      forall i | 0 <= i < |name|
        ensures NameChar(name[i])
      {
        if 0 < i < |rest| {
          assert name[i] == rest[..|rest| - 1][i - 1];
        }
      }
    }
  }

  lemma MailboxRoomsMatch(room: string)
    ensures IsMailboxRoom(room) <==> MatchesPattern(room)
  {
    hide IsName, IsMailboxName;
    if IsMailboxRoom(room) {
      var name := room[|MAILBOX_PREFIX|..];
      NameNotEmpty(name);
      assert name == [name[0]] + name[1..];
      assert room == "mb-" + [name[0]] + name[1..];
      NameMatches(name[0], name[1..]);
    }
    if first: char, rest: string :| room == "mb-" + [first] + rest && IsName(first, rest) {
      assert room[|MAILBOX_PREFIX|..] == [first] + rest;
      NameMatches(first, rest);
    }
  }

  lemma NameNotEmpty(name: string)
    requires IsMailboxName(name)
    ensures name != ""
  {
  }

  predicate IsWritableRoom(room: string) {
    room == CANONICAL_ROOM || IsMailboxRoom(room)
  }

  // None stands for the SafetyError on an unsupported room.
  function SignedPostPreimage(room: string, nonce: int, text: string): Option<string> {
    if IsWritableRoom(room) then Some(Fields(room, Fields(Decimal(nonce), text))) else None
  }

  // Posts are signed for the agent's own room and for mailbox rooms, and for no other.
  lemma SignedExactlyFor(room: string, nonce: int, text: string)
    ensures SignedPostPreimage(room, nonce, text).Some? <==> room == "d-flop-bench" || MatchesPattern(room)
  {
    hide IsMailboxRoom, MatchesPattern, Decimal, Fields;
    MailboxRoomsMatch(room);
  }

  function SignedNotePreimage(namespace: string, key: string, nonce: int, value: string): string {
    Fields(namespace, Fields(key, Fields(Decimal(nonce), value)))
  }

  function RoomOwnerClaimPreimage(room: string, nonce: int, did: string): string {
    SignedNotePreimage("room-owners", room, nonce, did)
  }

  function EnvelopePreimage(kind: string, canonicalJson: string): string {
    Fields("flop-bench-v0.2", Fields(kind, canonicalJson))
  }

  lemma FirstFieldUnique(a: string, x: string, b: string, y: string)
    requires NoBar(a) && NoBar(b) && Fields(a, x) == Fields(b, y)
    ensures a == b && x == y
  {
    var s, t := Fields(a, x), Fields(b, y);
    assert s[|a|] == '|' && t[|b|] == '|';
    assert forall i :: 0 <= i < |a| ==> s[i] == a[i];
    assert forall i :: 0 <= i < |b| ==> t[i] == b[i];
    assert |a| == |b|;
    assert a == s[..|a|] && b == t[..|b|];
    assert x == s[|a| + 1..] && y == t[|b| + 1..];
  }

  // The text up to the first bar, and the text behind it.
  function UpToBar(s: string): (r: string)
    ensures |r| <= |s|
  {
    if s == [] || s[0] == '|' then [] else [s[0]] + UpToBar(s[1..])
  }

  function BehindBar(s: string): string {
    if |UpToBar(s)| < |s| then s[|UpToBar(s)| + 1..] else []
  }

  lemma {:induction false} FieldReads(a: string, rest: string)
    requires NoBar(a)
    ensures UpToBar(Fields(a, rest)) == a && BehindBar(Fields(a, rest)) == rest
  {
    if a == [] {
    } else {
      var s := Fields(a, rest);
      assert s[1..] == Fields(a[1..], rest);
      FieldReads(a[1..], rest);
    }
  }

  lemma DigitCharsInjective(ds: seq<nat>, es: seq<nat>)
    requires Digits(ds, 10) && Digits(es, 10) && DigitChars(ds) == DigitChars(es)
    ensures ds == es
  {
    var s, t := DigitChars(ds), DigitChars(es);
    forall i | 0 <= i < |ds| ensures ds[i] == es[i] {
      assert s[i] == t[i];
    }
  }

  lemma DigitCharRange(ds: seq<nat>)
    requires Digits(ds, 10)
    ensures forall i :: 0 <= i < |ds| ==> '0' <= DigitChars(ds)[i] <= '9'
  {
  }

  lemma DecimalNoBar(n: int)
    ensures NoBar(Decimal(n))
  {
    if n != 0 {
      DigitCharRange(FromNat(if n > 0 then n else -n, 10));
    }
  }

  lemma DecimalHead(n: int)
    ensures Decimal(n) != []
    ensures n < 0 <==> Decimal(n)[0] == '-'
    ensures n == 0 <==> Decimal(n)[0] == '0'
    ensures n < 0 ==> Decimal(n)[1..] == DigitChars(FromNat(-n, 10))
  {
    if n != 0 {
      DigitCharRange(FromNat(if n > 0 then n else -n, 10));
    }
  }

  lemma DecimalInjective(m: int, n: int)
    requires Decimal(m) == Decimal(n)
    ensures m == n
  {
    DecimalHead(m);
    DecimalHead(n);
    if m != 0 {
      var a, b := if m < 0 then -m else m, if n < 0 then -n else n;
      DigitCharsInjective(FromNat(a, 10), FromNat(b, 10));
      FromNatInjective(a, b, 10);
    }
  }

  lemma WritableRoomNoBar(room: string)
    requires IsWritableRoom(room)
    ensures NoBar(room)
    ensures room != "room-owners" && room != "flop-bench-v0.2"
  {
    if IsMailboxRoom(room) {
      assert room == MAILBOX_PREFIX + room[|MAILBOX_PREFIX|..];
      assert room[0] == 'm';
    }
  }

  // A signature covers one (room, nonce, text), even when the text itself contains bars.
  lemma PostPreimageUnambiguous(room: string, nonce: int, text: string,
                                room': string, nonce': int, text': string)
    requires SignedPostPreimage(room, nonce, text).Some?
    requires SignedPostPreimage(room, nonce, text) == SignedPostPreimage(room', nonce', text')
    ensures room == room' && nonce == nonce' && text == text'
  {
    WritableRoomNoBar(room);
    WritableRoomNoBar(room');
    DecimalNoBar(nonce);
    DecimalNoBar(nonce');
    FirstFieldUnique(room, Fields(Decimal(nonce), text), room', Fields(Decimal(nonce'), text'));
    FirstFieldUnique(Decimal(nonce), text, Decimal(nonce'), text');
    DecimalInjective(nonce, nonce');
  }

  // What is signed for a post, read at its first two bars: the room, a numeral for the nonce, and the text.
  lemma PostPreimageReads(room: string, nonce: nat, text: string)
    requires IsWritableRoom(room)
    ensures SignedPostPreimage(room, nonce, text).Some?
    ensures var s := SignedPostPreimage(room, nonce, text).value;
            UpToBar(s) == room && IsNumeral(UpToBar(BehindBar(s))) && Value(UpToBar(BehindBar(s))) == nonce
            && BehindBar(BehindBar(s)) == text
  {
    hide IsWritableRoom, Decimal, Fields, UpToBar, BehindBar, IsNumeral, Value;
    WritableRoomNoBar(room);
    DecimalNoBar(nonce);
    DecimalReads(nonce);
    FieldReads(room, Fields(Decimal(nonce), text));
    FieldReads(Decimal(nonce), text);
  }

  // What is signed for a room-owner note: its namespace, the room, a numeral for the nonce, and the DID.
  lemma ClaimPreimageReads(room: string, nonce: nat, did: string)
    requires IsWritableRoom(room)
    ensures var s := RoomOwnerClaimPreimage(room, nonce, did);
            var r := BehindBar(s);
            UpToBar(s) == "room-owners" && UpToBar(r) == room && IsNumeral(UpToBar(BehindBar(r)))
            && Value(UpToBar(BehindBar(r))) == nonce && BehindBar(BehindBar(r)) == did
  {
    WritableRoomNoBar(room);
    hide IsWritableRoom, Decimal, Fields, UpToBar, BehindBar, IsNumeral, Value;
    DecimalNoBar(nonce);
    DecimalReads(nonce);
    FieldReads("room-owners", Fields(room, Fields(Decimal(nonce), did)));
    FieldReads(room, Fields(Decimal(nonce), did));
    FieldReads(Decimal(nonce), did);
  }

  // What is signed for an envelope: the protocol's name, the kind, and the canonical text.
  lemma EnvelopePreimageReads(kind: string, canonicalJson: string)
    requires NoBar(kind)
    ensures var s := EnvelopePreimage(kind, canonicalJson);
            UpToBar(s) == "flop-bench-v0.2" && UpToBar(BehindBar(s)) == kind
            && BehindBar(BehindBar(s)) == canonicalJson
  {
    hide Fields, UpToBar, BehindBar;
    FieldReads("flop-bench-v0.2", Fields(kind, canonicalJson));
    FieldReads(kind, canonicalJson);
  }

  // A signed room post can never be replayed as a room-ownership claim or as an envelope.
  lemma SigningFormatsSeparate(room: string, nonce: int, text: string,
                               owned: string, noteNonce: int, did: string,
                               kind: string, canonicalJson: string)
    requires IsWritableRoom(room)
    ensures SignedPostPreimage(room, nonce, text) != Some(RoomOwnerClaimPreimage(owned, noteNonce, did))
    ensures SignedPostPreimage(room, nonce, text) != Some(EnvelopePreimage(kind, canonicalJson))
    ensures RoomOwnerClaimPreimage(owned, noteNonce, did) != EnvelopePreimage(kind, canonicalJson)
  {
    WritableRoomNoBar(room);
    var post := Fields(Decimal(nonce), text);
    var note := Fields(owned, Fields(Decimal(noteNonce), did));
    var envelope := Fields(kind, canonicalJson);
    if Fields(room, post) == Fields("room-owners", note) {
      FirstFieldUnique(room, post, "room-owners", note);
    }
    if Fields(room, post) == Fields("flop-bench-v0.2", envelope) {
      FirstFieldUnique(room, post, "flop-bench-v0.2", envelope);
    }
    if Fields("room-owners", note) == Fields("flop-bench-v0.2", envelope) {
      FirstFieldUnique("room-owners", note, "flop-bench-v0.2", envelope);
    }
  }

  // ---- Field order: when does room|text|nonce differ from room|nonce|text? ----

  function Power(word: string, k: nat): string {
    if k == 0 then "" else word + Power(word, k - 1)
  }

  // k copies of the nonce separated by bars.
  function Joined(nonce: string, k: nat): string
    requires k >= 1
  {
    if k == 1 then nonce else Fields(nonce, Joined(nonce, k - 1))
  }

  ghost predicate ArePowersOf(x: string, y: string, word: string, i: nat, j: nat) {
    x == Power(word, i) && y == Power(word, j)
  }

  lemma {:induction false} PowerAdd(word: string, i: nat, j: nat)
    ensures Power(word, i) + Power(word, j) == Power(word, i + j)
  {
    if i > 0 {
      PowerAdd(word, i - 1, j);
      assert Power(word, i) + Power(word, j) == word + (Power(word, i - 1) + Power(word, j));
    } else {
      assert Power(word, 0) + Power(word, j) == Power(word, j);
    }
  }

  // Two words commute exactly when they are powers of one word.
  lemma {:induction false} CommutingWords(x: string, y: string)
    ensures x + y == y + x <==> exists word: string, i: nat, j: nat :: ArePowersOf(x, y, word, i, j)
  {
    if word: string, i: nat, j: nat :| ArePowersOf(x, y, word, i, j) {
      PowerAdd(word, i, j);
      PowerAdd(word, j, i);
    }
    if x + y == y + x {
      var word, i, j := CommonRoot(x, y);
      assert ArePowersOf(x, y, word, i, j);
    }
  }

  lemma {:induction false} CommonRoot(x: string, y: string) returns (word: string, i: nat, j: nat)
    requires x + y == y + x
    ensures ArePowersOf(x, y, word, i, j)
    decreases |x| + |y|
  {
    if x == "" {
      word, i, j := y, 0, 1;
      assert Power(y, 1) == y + Power(y, 0);
    } else if y == "" {
      word, i, j := x, 1, 0;
      assert Power(x, 1) == x + Power(x, 0);
    } else if |x| <= |y| {
      var rest := PeelPrefix(x, y);
      word, i, j := CommonRoot(x, rest);
      PowerAdd(word, i, j);
      j := i + j;
    } else {
      var rest := PeelPrefix(y, x);
      word, j, i := CommonRoot(y, rest);
      PowerAdd(word, j, i);
      i := j + i;
    }
  }

  lemma PeelPrefix(x: string, y: string) returns (rest: string)
    requires x + y == y + x && |x| <= |y|
    ensures y == x + rest && x + rest == rest + x && |rest| == |y| - |x|
  {
    rest := y[|x|..];
    assert x == (x + y)[..|x|] == (y + x)[..|x|] == y[..|x|];
    assert y == x + rest;
    assert (x + y)[|x|..] == y && (y + x)[|x|..] == rest + x;
  }

  lemma SwappedOrderCommutes(room: string, nonce: string, text: string)
    ensures Fields(room, Fields(text, nonce)) == Fields(room, Fields(nonce, text))
            <==> (text + "|") + (nonce + "|") == (nonce + "|") + (text + "|")
  {
    var a, b := Fields(text, nonce), Fields(nonce, text);
    assert (text + "|") + (nonce + "|") == a + "|";
    assert (nonce + "|") + (text + "|") == b + "|";
    if a + "|" == b + "|" {
      assert a == (a + "|")[..|a|] && b == (b + "|")[..|b|];
    }
    if Fields(room, a) == Fields(room, b) {
      assert a == Fields(room, a)[|room| + 1..] && b == Fields(room, b)[|room| + 1..];
    }
  }

  // For every nonce and text: the two orders coincide exactly when text| and nonce| share a root word.
  lemma OrdersIndistinguishable(room: string, nonce: string, text: string)
    ensures Fields(room, Fields(text, nonce)) == Fields(room, Fields(nonce, text))
            <==> exists word: string, i: nat, j: nat :: ArePowersOf(text + "|", nonce + "|", word, i, j)
  {
    SwappedOrderCommutes(room, nonce, text);
    CommutingWords(text + "|", nonce + "|");
  }

  // For a nonce without bars, exactly when the text is the nonce repeated with bars in between.
  lemma OrdersIndistinguishableNoBar(room: string, nonce: string, text: string)
    requires NoBar(nonce)
    ensures Fields(room, Fields(text, nonce)) == Fields(room, Fields(nonce, text))
            <==> exists k: nat :: k >= 1 && text == Joined(nonce, k)
  {
    var a, b := Fields(text, nonce), Fields(nonce, text);
    if Fields(room, a) == Fields(room, b) {
      assert a == Fields(room, a)[|room| + 1..] && b == Fields(room, b)[|room| + 1..];
      var k := RepeatedNonce(nonce, text);
    }
    if k: nat :| k >= 1 && text == Joined(nonce, k) {
      JoinedCommutes(nonce, k);
    }
  }

  lemma {:induction false} RepeatedNonce(nonce: string, text: string) returns (k: nat)
    requires NoBar(nonce) && Fields(text, nonce) == Fields(nonce, text)
    ensures k >= 1 && text == Joined(nonce, k)
    decreases |text|
  {
    if text == nonce {
      k := 1;
    } else {
      var rest := PeelNonce(nonce, text);
      k := RepeatedNonce(nonce, rest);
      k := k + 1;
    }
  }

  lemma PeelNonce(nonce: string, text: string) returns (rest: string)
    requires NoBar(nonce) && Fields(text, nonce) == Fields(nonce, text) && text != nonce
    ensures text == Fields(nonce, rest) && Fields(rest, nonce) == Fields(nonce, rest)
  {
    var a, b := Fields(text, nonce), Fields(nonce, text);
    assert a[|text|] == '|';
    assert forall i :: 0 <= i < |nonce| ==> b[i] == nonce[i];
    assert |text| >= |nonce|;
    assert text[..|nonce|] == a[..|nonce|] == b[..|nonce|] == nonce;
    assert |text| != |nonce|;
    assert text[|nonce|] == a[|nonce|] == b[|nonce|] == '|';
    rest := text[|nonce| + 1..];
    assert text == Fields(nonce, rest);
    assert Fields(rest, nonce) == a[|nonce| + 1..] == b[|nonce| + 1..] == text;
  }

  lemma {:induction false} JoinedCommutes(nonce: string, k: nat)
    requires k >= 1
    ensures Fields(Joined(nonce, k), nonce) == Fields(nonce, Joined(nonce, k))
  {
    if k == 1 {
    } else {
      JoinedCommutes(nonce, k - 1);
      var rest := Joined(nonce, k - 1);
      assert Fields(Fields(nonce, rest), nonce) == Fields(nonce, Fields(rest, nonce));
    }
  }

  // verify_signing_request: the fields that decide the verdict.
  datatype SigningRequest = SigningRequest(
    schema: string, taskType: string, hasSpecimen: bool,
    room: string, nonce: string, text: string, supplied: string,
    expectedPayload: Option<string>, canonicalOrder: Option<string>)

  datatype Verdict = Verdict(pass: bool, score: nat, findings: seq<string>)

  function VerifySigningRequest(r: SigningRequest): Result<Verdict, string> {
    if r.schema != "flop-verification-request/v1" then Err("unsupported verification request schema")
    else if r.taskType != "technocore.synthetic_signing_payload_order" then
      Err("unsupported verification task type")
    else if !r.hasSpecimen then Err("verification request specimen must be an object")
    else
      var expected := Fields(r.room, Fields(r.nonce, r.text));
      var broken := Fields(r.room, Fields(r.text, r.nonce));
      var pass :=
        r.canonicalOrder == Some("room|nonce|text") && r.supplied == broken
        && r.supplied != expected && r.expectedPayload == Some(expected);
      Ok(Verdict(pass, if pass then 100 else 0,
                 if pass then ["nonce/text ordering defect identified"] else []))
  }

  // Which requests get a verdict, and what the verdict says besides: full score and one finding, or none of both.
  lemma VerdictCases(r: SigningRequest)
    ensures VerifySigningRequest(r).Ok? <==>
              r.schema == "flop-verification-request/v1" && r.hasSpecimen
              && r.taskType == "technocore.synthetic_signing_payload_order"
    ensures VerifySigningRequest(r) == Err("unsupported verification request schema") <==>
              r.schema != "flop-verification-request/v1"
    ensures VerifySigningRequest(r) == Err("verification request specimen must be an object") <==>
              r.schema == "flop-verification-request/v1" && !r.hasSpecimen
              && r.taskType == "technocore.synthetic_signing_payload_order"
    ensures VerifySigningRequest(r).Ok? ==>
              var v := VerifySigningRequest(r).value;
              (v.pass <==> v.score == 100) && (!v.pass <==> v.score == 0) && (!v.pass <==> v.findings == [])
              && (v.pass <==> v.findings == ["nonce/text ordering defect identified"])
  {
    var schema, task := "unsupported verification request schema", "unsupported verification task type";
    assert schema[|schema| - 1] == 'a' && task[|task| - 1] == 'e';
  }

  // A request shows the swapped payload and knows the proper one.
  predicate ShowsSwap(r: SigningRequest) {
    r.canonicalOrder == Some("room|nonce|text") && r.supplied == Fields(r.room, Fields(r.text, r.nonce))
    && r.expectedPayload == Some(Fields(r.room, Fields(r.nonce, r.text)))
  }

  // It passes exactly when, besides, the two payloads differ: text and nonce, each with a bar, share no root word.
  // For a bar-free nonce that fails only for a text made of copies of that nonce.
  lemma PassIff(r: SigningRequest)
    requires VerifySigningRequest(r).Ok?
    ensures VerifySigningRequest(r).value.pass <==>
              ShowsSwap(r)
              && !exists word: string, i: nat, j: nat :: ArePowersOf(r.text + "|", r.nonce + "|", word, i, j)
    ensures NoBar(r.nonce) ==>
              (VerifySigningRequest(r).value.pass <==>
                 ShowsSwap(r) && forall k: nat :: k >= 1 ==> r.text != Joined(r.nonce, k))
  {
    hide ArePowersOf, NoBar;
    OrdersIndistinguishable(r.room, r.nonce, r.text);
    if NoBar(r.nonce) {
      OrdersIndistinguishableNoBar(r.room, r.nonce, r.text);
    }
  }
}
