// Positional notation in an arbitrary base, most significant digit first.
module Numerals {
  import opened Common

  predicate Digits(ds: seq<nat>, b: nat) {
    forall i :: 0 <= i < |ds| ==> ds[i] < b
  }

  // No superfluous zero in front; the empty numeral denotes zero.
  predicate Canonical(ds: seq<nat>) {
    ds == [] || ds[0] != 0
  }

  function ToNat(ds: seq<nat>, b: nat): nat {
    if ds == [] then 0 else ToNat(ds[..|ds| - 1], b) * b + ds[|ds| - 1]
  }

  function FromNat(n: nat, b: nat): (ds: seq<nat>)
    requires b >= 2
    ensures Digits(ds, b) && Canonical(ds)
    ensures n > 0 ==> ds != []
  {
    if n == 0 then [] else FromNat(n / b, b) + [n % b]
  }

  function LeadingZeros(ds: seq<nat>): (k: nat)
    ensures k <= |ds| && Canonical(ds[k..])
    ensures ds == Repeat(k, 0) + ds[k..]
  {
    if ds == [] || ds[0] != 0 then
      assert ds == Repeat(0, 0) + ds[0..];
      0
    else
      var k := 1 + LeadingZeros(ds[1..]);
      assert ds == [0] + ds[1..];
      assert ds[k..] == ds[1..][k - 1..];
      assert Repeat(k, 0) == [0] + Repeat(k - 1, 0);
      k
  }

  // Re-expresses a digit string in another base and keeps its leading zeros one for one.
  function Convert(ds: seq<nat>, from: nat, to: nat): (r: seq<nat>)
    requires from >= 2 && to >= 2
    ensures Digits(r, to)
  {
    Repeat(LeadingZeros(ds), 0) + FromNat(ToNat(ds, from), to)
  }

  lemma QuotientSmaller(n: nat, b: nat)
    requires b >= 2 && n > 0
    ensures n / b < n
  {
    var q := n / b;
    DivModSum(n, b);
    assert q * b == q * 2 + q * (b - 2);
  }

  lemma FromNatStep(n: nat, b: nat)
    requires b >= 2 && n > 0
    ensures FromNat(n, b) == FromNat(n / b, b) + [n % b]
  {
  }

  lemma {:induction false} ToNatOfFromNat(n: nat, b: nat)
    requires b >= 2
    ensures ToNat(FromNat(n, b), b) == n
  {
    if n == 0 {
      assert FromNat(n, b) == [];
    } else {
      hide ToNat, FromNat;
      FromNatStep(n, b);
      QuotientSmaller(n, b);
      ToNatOfFromNat(n / b, b);
      ToNatAppend(FromNat(n / b, b), n % b, b);
      DivModSum(n, b);
    }
  }

  lemma DivModSum(n: nat, b: nat)
    requires b > 0
    ensures n == n / b * b + n % b
  {
  }

  lemma ToNatAppend(ds: seq<nat>, d: nat, b: nat)
    ensures ToNat(ds + [d], b) == ToNat(ds, b) * b + d
  {
    assert (ds + [d])[..|ds|] == ds;
  }

  lemma {:induction false} ToNatPositive(ds: seq<nat>, b: nat)
    requires b >= 2 && ds != [] && ds[0] != 0
    ensures ToNat(ds, b) > 0
  {
    if |ds| == 1 {
    } else {
      ToNatPositive(ds[..|ds| - 1], b);
    }
  }

  lemma DivModStep(q: nat, d: nat, b: nat)
    requires d < b
    ensures (q * b + d) / b == q && (q * b + d) % b == d
  {
    var m := q * b + d;
    var e := m / b - q;
    assert e * b == d - m % b;
    assert e >= 1 ==> e * b >= b;
    assert e <= -1 ==> e * b + b <= 0;
  }

  lemma {:induction false} FromNatOfToNat(ds: seq<nat>, b: nat)
    requires b >= 2 && Digits(ds, b) && Canonical(ds)
    ensures FromNat(ToNat(ds, b), b) == ds
  {
    if ds == [] {
    } else {
      var p, d := ds[..|ds| - 1], ds[|ds| - 1];
      ToNatPositive(ds, b);
      FromNatOfToNat(p, b);
      DivModStep(ToNat(p, b), d, b);
      assert ds == p + [d];
    }
  }

  lemma {:induction false} ToNatLeadingZeros(k: nat, ds: seq<nat>, b: nat)
    ensures ToNat(Repeat(k, 0) + ds, b) == ToNat(ds, b)
    decreases k + |ds|
  {
    var zs := Repeat(k, 0) + ds;
    if ds != [] {
      assert zs[..|zs| - 1] == Repeat(k, 0) + ds[..|ds| - 1];
      ToNatLeadingZeros(k, ds[..|ds| - 1], b);
    } else if k > 0 {
      assert zs[..|zs| - 1] == Repeat(k - 1, 0) + ds;
      assert zs[|zs| - 1] == 0;
      ToNatLeadingZeros(k - 1, ds, b);
    }
  }

  lemma {:induction false} LeadingZerosExact(k: nat, ds: seq<nat>)
    requires Canonical(ds)
    ensures LeadingZeros(Repeat(k, 0) + ds) == k
  {
    var zs := Repeat(k, 0) + ds;
    if k > 0 {
      assert zs[1..] == Repeat(k - 1, 0) + ds;
      LeadingZerosExact(k - 1, ds);
    } else {
      assert zs == ds;
    }
  }

  // Changing base and back is the identity on every digit string, leading zeros included.
  lemma ConvertRoundTrip(ds: seq<nat>, a: nat, b: nat)
    requires a >= 2 && b >= 2 && Digits(ds, a)
    ensures Convert(Convert(ds, a, b), b, a) == ds
  {
    var z := LeadingZeros(ds);
    var rest := ds[z..];
    ToNatLeadingZeros(z, rest, a);
    var n := ToNat(rest, a);
    LeadingZerosExact(z, FromNat(n, b));
    ToNatLeadingZeros(z, FromNat(n, b), b);
    ToNatOfFromNat(n, b);
    FromNatOfToNat(rest, a);
  }

  lemma FromNatInjective(m: nat, n: nat, b: nat)
    requires b >= 2 && FromNat(m, b) == FromNat(n, b)
    ensures m == n
  {
    ToNatOfFromNat(m, b);
    ToNatOfFromNat(n, b);
  }
}
