// The only remote procedure: comparing two JSON scalars (src/flop_bench/execution.py).
module LiteralEquality {
  import opened Common
  import Numerals
  import Preimage

  // A JSON scalar; a float is kept as the text Python prints for it.
  datatype Scalar = Null | Boolean(b: bool) | Integer(i: int) | Number(repr: string) | Text(s: string)

  datatype Procedure = Procedure(actual: Scalar, expected: Scalar)

  datatype Observation = Observation(
    actualType: string, expectedType: string, actualHash: string, expectedHash: string, pass: bool)

  // The texts that Python prints for finite floats.
  predicate IsFloatText(t: string) {
    t != [] && (t[0] == '-' || '0' <= t[0] <= '9') && ('.' in t || 'e' in t)
  }

  predicate WellFormed(v: Scalar) {
    v.Number? ==> IsFloatText(v.repr)
  }

  // _json_type
  function JsonType(v: Scalar): string {
    match v
    case Null => "null"
    case Boolean(_) => "boolean"
    case Integer(_) => "integer"
    case Number(_) => "number"
    case Text(_) => "string"
  }

  // The JSON type's name says which kind of scalar it is.
  predicate TypeNames(name: string, v: Scalar) {
    (name == "null" <==> v.Null?) && (name == "boolean" <==> v.Boolean?) && (name == "integer" <==> v.Integer?)
    && (name == "number" <==> v.Number?) && (name == "string" <==> v.Text?)
  }

  function HexDigit(d: nat): char
    requires d < 16
  {
    if d < 10 then '0' + d as char else 'a' + (d - 10) as char
  }

  function Escape(c: char): (r: string)
    ensures r != []
  {
    if c == '\"' || c == '\\' then ['\\', c]
    else if c == '\n' then "\\n"
    else if c == '\r' then "\\r"
    else if c == '\t' then "\\t"
    else if c == 8 as char then "\\b"
    else if c == 12 as char then "\\f"
    else if c < ' ' then "\\u00" + [HexDigit(c as int / 16), HexDigit(c as int % 16)]
    else [c]
  }

  function EscapeAll(s: string): string {
    if s == [] then [] else Escape(s[0]) + EscapeAll(s[1..])
  }

  function HexValue(c: char): Option<nat> {
    if '0' <= c <= '9' then Some(c as nat - '0' as nat)
    else if 'a' <= c <= 'f' then Some(10 + c as nat - 'a' as nat)
    else if 'A' <= c <= 'F' then Some(10 + c as nat - 'A' as nat)
    else None
  }

  // The character behind a backslash and a letter.
  function Named(c: char): Option<char> {
    if c == '\"' || c == '\\' || c == '/' then Some(c)
    else if c == 'b' then Some(8 as char)
    else if c == 'f' then Some(12 as char)
    else if c == 'n' then Some(10 as char)
    else if c == 'r' then Some(13 as char)
    else if c == 't' then Some(9 as char)
    else None
  }

  // The character of four hexadecimal digits, where they are one outside the surrogates.
  function HexChar(h: string): Option<char>
    requires |h| == 4
  {
    var a, b, c, d := HexValue(h[0]), HexValue(h[1]), HexValue(h[2]), HexValue(h[3]);
    if a.None? || b.None? || c.None? || d.None? then None
    else
      var code := a.value * 4096 + b.value * 256 + c.value * 16 + d.value;
      if code < 0xD800 || 0xE000 <= code < 0x10000 then Some(code as char) else None
  }

  // Reading the inside of a JSON string, after section 7 of RFC 8259; None where it is not one.
  function Unescape(s: string): Option<string> {
    if s == [] then Some([])
    else if s[0] != '\\' then
      if s[0] < ' ' || s[0] == '\"' then None else Prepend(Some(s[0]), Unescape(s[1..]))
    else if |s| >= 6 && s[1] == 'u' then Prepend(HexChar(s[2..6]), Unescape(s[6..]))
    else if |s| >= 2 then Prepend(Named(s[1]), Unescape(s[2..]))
    else None
  }

  function Prepend(c: Option<char>, rest: Option<string>): Option<string> {
    if c.Some? && rest.Some? then Some([c.value] + rest.value) else None
  }

  lemma UnescapeOne(c: char, rest: string)
    ensures Unescape(Escape(c) + rest) == Prepend(Some(c), Unescape(rest))
  {
    var s := Escape(c) + rest;
    assert forall i :: 0 <= i < |Escape(c)| ==> s[i] == Escape(c)[i];
    assert s[|Escape(c)|..] == rest;
    if |Escape(c)| == 6 {
      assert s[2..6] == ['0', '0', HexDigit(c as int / 16), HexDigit(c as int % 16)];
      HexReads(c);
    }
  }

  lemma HexReads(c: char)
    requires c < ' '
    ensures HexChar(['0', '0', HexDigit(c as int / 16), HexDigit(c as int % 16)]) == Some(c)
  {
    var hi, lo := c as int / 16, c as int % 16;
    assert HexValue(HexDigit(hi)) == Some(hi) && HexValue(HexDigit(lo)) == Some(lo);
    assert hi * 16 + lo == c as int;
  }

  // An escaped string is the inside of a JSON string, and reading it gives the string back.
  lemma {:induction false} UnescapeInverts(s: string)
    ensures Unescape(EscapeAll(s)) == Some(s)
  {
    if s == [] {
    } else {
      hide Escape, Unescape;
      UnescapeInverts(s[1..]);
      UnescapeOne(s[0], EscapeAll(s[1..]));
      assert s == [s[0]] + s[1..];
    }
  }

  // canonical_json_bytes of a scalar, before the UTF-8 encoding
  function CanonicalText(v: Scalar): string {
    match v
    case Null => "null"
    case Boolean(b) => if b then "true" else "false"
    case Integer(i) => Preimage.Decimal(i)
    case Number(t) => t
    case Text(s) => "\"" + EscapeAll(s) + "\""
  }

  // _run_literal_equality
  function RunLiteralEquality(hash: string -> string, procedure: Procedure): Observation {
    var actual, expected := procedure.actual, procedure.expected;
    Observation(
      JsonType(actual), JsonType(expected), hash(CanonicalText(actual)), hash(CanonicalText(expected)),
      JsonType(actual) == JsonType(expected) && CanonicalText(actual) == CanonicalText(expected))
  }

  lemma EscapeIsCode(c: char, d: char, x: string, y: string)
    requires Escape(c) + x == Escape(d) + y
    ensures c == d && x == y
  {
    var s, t := Escape(c) + x, Escape(d) + y;
    assert s[0] == Escape(c)[0] && t[0] == Escape(d)[0];
    if s[0] == '\\' {
      assert s[1] == Escape(c)[1] && t[1] == Escape(d)[1];
      if s[1] == 'u' {
        assert s[4] == Escape(c)[4] && t[4] == Escape(d)[4];
        assert s[5] == Escape(c)[5] && t[5] == Escape(d)[5];
      }
    }
    assert c == d;
    assert x == s[|Escape(c)|..] && y == t[|Escape(d)|..];
  }

  lemma {:induction false} EscapeAllInjective(s: string, t: string)
    requires EscapeAll(s) == EscapeAll(t)
    ensures s == t
  {
    if s == [] || t == [] {
    } else {
      EscapeIsCode(s[0], t[0], EscapeAll(s[1..]), EscapeAll(t[1..]));
      EscapeAllInjective(s[1..], t[1..]);
    }
  }

  lemma DecimalHasNoPoint(n: int)
    ensures Preimage.Decimal(n) != [] && '.' !in Preimage.Decimal(n) && 'e' !in Preimage.Decimal(n)
    ensures Preimage.Decimal(n)[0] == '-' || '0' <= Preimage.Decimal(n)[0] <= '9'
  {
    if n != 0 {
      Preimage.DigitCharRange(Numerals.FromNat(if n > 0 then n else -n, 10));
    }
  }

  // Canonical text is the JSON text of the value.
  lemma CanonicalTextReads(v: Scalar)
    ensures v.Null? ==> CanonicalText(v) == "null"
    ensures v == Boolean(true) ==> CanonicalText(v) == "true"
    ensures v == Boolean(false) ==> CanonicalText(v) == "false"
    ensures v.Integer? && v.i >= 0 ==>
              Preimage.IsNumeral(CanonicalText(v)) && Preimage.Value(CanonicalText(v)) == v.i
    ensures v.Integer? && v.i < 0 ==> CanonicalText(v) == "-" + CanonicalText(Integer(-v.i))
    ensures v.Number? ==> CanonicalText(v) == v.repr
    ensures v.Text? ==> exists inner :: CanonicalText(v) == "\"" + inner + "\"" && Unescape(inner) == Some(v.s)
  {
    hide Unescape, Preimage.Decimal, Preimage.IsNumeral, Preimage.Value;
    if v.Integer? {
      Preimage.DecimalReads(v.i);
    } else if v.Text? {
      UnescapeInverts(v.s);
      assert CanonicalText(v) == "\"" + EscapeAll(v.s) + "\"";
    }
  }

  // Canonical text alone tells well-formed scalars apart, whatever their types.
  lemma CanonicalTextInjective(v: Scalar, w: Scalar)
    requires WellFormed(v) && WellFormed(w) && CanonicalText(v) == CanonicalText(w)
    ensures v == w
  {
    HeadTellsKind(v);
    HeadTellsKind(w);
    if v.Text? && w.Text? {
      var a, b := CanonicalText(v), CanonicalText(w);
      assert EscapeAll(v.s) == a[1..|a| - 1] && EscapeAll(w.s) == b[1..|b| - 1];
      EscapeAllInjective(v.s, w.s);
    } else if v.Integer? && w.Integer? {
      Preimage.DecimalInjective(v.i, w.i);
    }
  }

  lemma HeadTellsKind(v: Scalar)
    requires WellFormed(v)
    ensures var t := CanonicalText(v);
            t != [] && (v.Text? <==> t[0] == '\"') && (v.Null? <==> t[0] == 'n')
            && (v == Boolean(true) <==> t[0] == 't') && (v == Boolean(false) <==> t[0] == 'f')
            && (v.Integer? || v.Number? <==> t[0] == '-' || '0' <= t[0] <= '9')
            && (v.Integer? ==> '.' !in t && 'e' !in t)
  {
    if v.Integer? {
      DecimalHasNoPoint(v.i);
    }
  }

  // What the evidence shows about each side, and that it cannot hide a difference: equal hashes of values that do not
  // pass are a collision.
  lemma EvidenceMeans(hash: string -> string, procedure: Procedure)
    requires WellFormed(procedure.actual) && WellFormed(procedure.expected)
    ensures var o := RunLiteralEquality(hash, procedure);
            TypeNames(o.actualType, procedure.actual) && TypeNames(o.expectedType, procedure.expected)
            && o.actualHash == hash(CanonicalText(procedure.actual))
            && o.expectedHash == hash(CanonicalText(procedure.expected))
            && (o.pass ==> o.actualType == o.expectedType && o.actualHash == o.expectedHash)
            && (!o.pass && o.actualHash == o.expectedHash ==>
                  CanonicalText(procedure.actual) != CanonicalText(procedure.expected)
                  && hash(CanonicalText(procedure.actual)) == hash(CanonicalText(procedure.expected)))
  {
    if CanonicalText(procedure.actual) == CanonicalText(procedure.expected) {
      CanonicalTextInjective(procedure.actual, procedure.expected);
    }
  }

  // The procedure passes exactly when the two values are the same scalar of the same JSON type.
  lemma PassesIffSame(hash: string -> string, procedure: Procedure)
    requires WellFormed(procedure.actual) && WellFormed(procedure.expected)
    ensures RunLiteralEquality(hash, procedure).pass <==> procedure.actual == procedure.expected
  {
    if CanonicalText(procedure.actual) == CanonicalText(procedure.expected) {
      CanonicalTextInjective(procedure.actual, procedure.expected);
    }
  }
}
