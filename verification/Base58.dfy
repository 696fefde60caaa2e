// Base58 and Ed25519 did:key identifiers (src/flop_bench/identity.py, src/flop_bench/protocol.py).
module Base58 {
  import opened Common
  import opened Numerals

  const DID_PREFIX := "did:key:z"
  const MULTICODEC: seq<Byte> := [0xed, 0x01]
  const KEY_BYTES := 32

  // The symbol of a digit: the decimal digits without 0, the capitals without I and O, the small letters without l.
  function Symbol(d: nat): (c: char)
    requires d < 58
  {
    var code :=
      if d < 9 then '1' as nat + d
      else if d < 17 then 'A' as nat + (d - 9)
      else if d < 22 then 'J' as nat + (d - 17)
      else if d < 33 then 'P' as nat + (d - 22)
      else if d < 44 then 'a' as nat + (d - 33)
      else 'm' as nat + (d - 44);
    code as char
  }

  // The symbols increase, and they are exactly the ASCII digits and letters but 0, O, I and l: there is one such order.
  lemma SymbolsInOrder(d: nat, e: nat)
    requires d < e < 58
    ensures Symbol(d) < Symbol(e)
  {
  }

  predicate InAlphabet(c: char) {
    ('0' <= c <= '9' || 'A' <= c <= 'Z' || 'a' <= c <= 'z') && c != '0' && c != 'O' && c != 'I' && c != 'l'
  }

  lemma SymbolsAreAlphabet(c: char)
    ensures InAlphabet(c) <==> exists d: nat :: d < 58 && Symbol(d) == c
  {
    hide Symbol;
    if InAlphabet(c) {
      var d := IndexOf(c);
      assert d.Some? && Symbol(d.value) == c;
    }
    if d: nat :| d < 58 && Symbol(d) == c {
      SymbolInAlphabet(d);
    }
  }

  lemma SymbolInAlphabet(d: nat)
    requires d < 58
    ensures InAlphabet(Symbol(d))
  {
  }

  // The digit of a symbol; None for a character outside the alphabet.
  function IndexOf(c: char): (r: Option<nat>)
    ensures r.Some? ==> r.value < 58 && Symbol(r.value) == c
    ensures r.None? ==> forall d :: 0 <= d < 58 ==> Symbol(d) != c
  {
    if '1' <= c <= '9' then Some(c as nat - '1' as nat)
    else if 'A' <= c <= 'H' then Some(9 + c as nat - 'A' as nat)
    else if 'J' <= c <= 'N' then Some(17 + c as nat - 'J' as nat)
    else if 'P' <= c <= 'Z' then Some(22 + c as nat - 'P' as nat)
    else if 'a' <= c <= 'k' then Some(33 + c as nat - 'a' as nat)
    else if 'm' <= c <= 'z' then Some(44 + c as nat - 'm' as nat)
    else None
  }

  predicate IsBase58(text: string) {
    forall i :: 0 <= i < |text| ==> IndexOf(text[i]).Some?
  }

  function Chars(ds: seq<nat>): (text: string)
    requires Digits(ds, 58)
    ensures |text| == |ds| && IsBase58(text)
  {
    seq(|ds|, i requires 0 <= i < |ds| => Symbol(ds[i]))
  }

  function Values(text: string): (ds: seq<nat>)
    requires IsBase58(text)
    ensures |ds| == |text| && Digits(ds, 58)
    ensures forall i :: 0 <= i < |text| ==> Symbol(ds[i]) == text[i]
  {
    seq(|text|, i requires 0 <= i < |text| => IndexOf(text[i]).value)
  }

  function Encode(raw: seq<Byte>): (text: string)
    ensures IsBase58(text)
  {
    Chars(Convert(raw, 256, 58))
  }

  function Decode(text: string): (raw: seq<Byte>)
    requires IsBase58(text)
  {
    Convert(Values(text), 58, 256)
  }

  lemma ValuesOfChars(ds: seq<nat>)
    requires Digits(ds, 58)
    ensures Values(Chars(ds)) == ds
  {
  }

  lemma CharsOfValues(text: string)
    requires IsBase58(text)
    ensures Chars(Values(text)) == text
  {
  }

  // draft-msporny-base58-03, sections 3 and 4: both compositions are the identity.
  lemma DecodeInvertsEncode(raw: seq<Byte>)
    ensures Decode(Encode(raw)) == raw
  {
    ValuesOfChars(Convert(raw, 256, 58));
    ConvertRoundTrip(raw, 256, 58);
  }

  lemma EncodeInvertsDecode(text: string)
    requires IsBase58(text)
    ensures Encode(Decode(text)) == text
  {
    ConvertRoundTrip(Values(text), 58, 256);
    CharsOfValues(text);
  }

  lemma CharsConcat(a: seq<nat>, b: seq<nat>)
    requires Digits(a, 58) && Digits(b, 58)
    ensures Chars(a + b) == Chars(a) + Chars(b)
  {
  }

  lemma CharsReversed(ds: seq<nat>)
    requires Digits(ds, 58)
    ensures Digits(Reversed(ds), 58) && Chars(Reversed(ds)) == Reversed(Chars(ds))
  {
  }

  lemma ReversedAppend<T>(s: seq<T>, x: T)
    ensures Reversed(s + [x]) == [x] + Reversed(s)
  {
  }

  // identity.b58encode: repeated division collects the symbols in reverse.
  method B58Encode(raw: seq<Byte>) returns (text: string)
    ensures text == Encode(raw)
  {
    var n := ToNat(raw, 256);
    var out: string := [];
    ghost var ds: seq<nat> := [];
    while n != 0
      invariant Digits(ds, 58) && out == Chars(ds)
      invariant FromNat(ToNat(raw, 256), 58) == FromNat(n, 58) + Reversed(ds)
    {
      var r := n % 58;
      n := n / 58;
      out := out + [Symbol(r)];
      CharsConcat(ds, [r]);
      ReversedAppend(ds, r);
      ds := ds + [r];
    }
    var zeros := LeadingZeros(raw);
    text := Repeat(zeros, Symbol(0)) + Reversed(out);
    CharsReversed(ds);
    CharsConcat(Repeat(zeros, 0), Reversed(ds));
    assert Chars(Repeat(zeros, 0)) == Repeat(zeros, Symbol(0));
  }

  lemma ValuesNext(text: string, i: nat)
    requires i < |text| && IsBase58(text[..i]) && IndexOf(text[i]).Some?
    ensures IsBase58(text[..i + 1])
    ensures ToNat(Values(text[..i + 1]), 58) == ToNat(Values(text[..i]), 58) * 58 + IndexOf(text[i]).value
  {
    var before, after := text[..i], text[..i + 1];
    assert forall j :: 0 <= j < i ==> after[j] == before[j];
    assert Values(after)[..i] == Values(before);
  }

  // identity.b58decode: None stands for the ValueError on a foreign character.
  method B58Decode(text: string) returns (r: Option<seq<Byte>>)
    ensures r == if IsBase58(text) then Some(Decode(text)) else None
  {
    hide IndexOf, FromNat;
    var n := 0;
    for i := 0 to |text|
      invariant IsBase58(text[..i])
      invariant n == ToNat(Values(text[..i]), 58)
    {
      var value := IndexOf(text[i]);
      if value.None? {
        return None;
      }
      ValuesNext(text, i);
      n := n * 58 + value.value;
    }
    assert text[..|text|] == text;
    var zeros := LeadingOnes(text);
    OnesAreZeros(text);
    r := Some(Repeat(zeros, 0) + FromNat(n, 256));
  }

  // The number of ones in front.
  function LeadingOnes(text: string): nat {
    if text == [] || text[0] != '1' then 0 else 1 + LeadingOnes(text[1..])
  }

  lemma {:induction false} OnesAreZeros(text: string)
    requires IsBase58(text)
    ensures LeadingOnes(text) == LeadingZeros(Values(text))
  {
    if text == [] {
    } else {
      assert Values(text)[0] == 0 <==> text[0] == '1';
      assert Values(text)[1..] == Values(text[1..]);
      OnesAreZeros(text[1..]);
    }
  }

  function PublicDid(key: seq<Byte>): string {
    DID_PREFIX + Encode(MULTICODEC + key)
  }

  predicate IsValidEd25519Did(did: string) {
    DID_PREFIX <= did && (
      var body := did[|DID_PREFIX|..];
      body != [] && IsBase58(body) && (
        var decoded := Decode(body);
        MULTICODEC <= decoded && |decoded| == 34))
  }

  function PublicKeyFromDid(did: string): Option<seq<Byte>> {
    if IsValidEd25519Did(did) then Some(Decode(did[|DID_PREFIX|..])[|MULTICODEC|..]) else None
  }

  // Exactly the identifiers of 32-byte keys are accepted.
  lemma ValidDidsAreImagesOfKeys(did: string)
    ensures IsValidEd25519Did(did) <==> exists key: seq<Byte> :: |key| == KEY_BYTES && did == PublicDid(key)
  {
    if IsValidEd25519Did(did) {
      var key := Decode(did[|DID_PREFIX|..])[|MULTICODEC|..];
      ValidDidIsImage(did);
      assert |key| == KEY_BYTES && did == PublicDid(key);
    }
    if key: seq<Byte> :| |key| == KEY_BYTES && did == PublicDid(key) {
      KeyRoundTrip(key);
    }
  }

  lemma ValidDidIsImage(did: string)
    requires IsValidEd25519Did(did)
    ensures did == PublicDid(Decode(did[|DID_PREFIX|..])[|MULTICODEC|..])
  {
    var body := did[|DID_PREFIX|..];
    var key := Decode(body)[|MULTICODEC|..];
    PrefixSplit(MULTICODEC, Decode(body));
    PrefixSplit(DID_PREFIX, did);
    BodyNamesKey(body, key);
  }

  lemma BodyNamesKey(body: string, key: seq<Byte>)
    requires IsBase58(body) && Decode(body) == MULTICODEC + key
    ensures PublicDid(key) == DID_PREFIX + body
  {
    EncodeInvertsDecode(body);
  }

  lemma PrefixSplit<T>(p: seq<T>, s: seq<T>)
    requires p <= s
    ensures s == p + s[|p|..]
  {
  }

  lemma DecodeEmpty()
    ensures Decode([]) == []
  {
  }

  lemma KeyRoundTrip(key: seq<Byte>)
    requires |key| == KEY_BYTES
    ensures IsValidEd25519Did(PublicDid(key))
    ensures PublicKeyFromDid(PublicDid(key)) == Some(key)
  {
    var raw := MULTICODEC + key;
    DecodeInvertsEncode(raw);
    assert PublicDid(key)[|DID_PREFIX|..] == Encode(raw);
    DecodeEmpty();
    assert raw[|MULTICODEC|..] == key;
  }
}
