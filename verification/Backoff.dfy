// Pacing of the mailbox worker, over the reals (src/flop_bench/worker.py).
module Backoff {
  import opened Common

  const MAX_INTERVAL_SECONDS := 3600.0

  datatype Timing = Timing(interval: real, maxBackoff: real)

  // validate_worker_timing
  predicate IsValid(t: Timing) {
    0.0 < t.interval <= MAX_INTERVAL_SECONDS && 0.0 < t.maxBackoff <= MAX_INTERVAL_SECONDS && t.interval <= t.maxBackoff
  }

  function Min(a: real, b: real): real {
    if b < a then b else a
  }

  function Max(a: real, b: real): real {
    if b > a then b else a
  }

  function PowerOfTwo(n: nat): (r: real)
    ensures r >= 1.0
  {
    if n == 0 then 1.0 else 2.0 * PowerOfTwo(n - 1)
  }

  function LeaseSeconds(t: Timing): real {
    Max(60.0, t.interval * 2.0)
  }

  // A product; its own function, so that proofs can treat it as linear.
  function Times(c: real, x: real): real {
    c * x
  }

  // The poll interval, doubled n times.
  function Doubled(t: Timing, n: nat): real {
    Times(t.interval, PowerOfTwo(n))
  }

  function Base(t: Timing, failures: nat): real
    requires failures >= 1
  {
    Min(t.maxBackoff, Doubled(t, failures - 1))
  }

  function Tilt(jitter: real): real {
    1.0 + Max(-0.1, Min(0.1, jitter))
  }

  lemma TiltRange(jitter: real)
    ensures 0.9 <= Tilt(jitter) <= 1.1
  {
  }

  // The delay after the given number of failures in a row.
  function Delay(t: Timing, failures: nat, jitter: real): real
    requires failures >= 1
  {
    Min(t.maxBackoff, Max(t.interval, Times(Base(t, failures), Tilt(jitter))))
  }

  lemma DelayBounds(t: Timing, failures: nat, jitter: real)
    requires IsValid(t) && failures >= 1
    ensures t.interval <= Delay(t, failures, jitter) <= t.maxBackoff
  {
    hide Base, Tilt, Times;
  }

  lemma TimesMonotone(c: real, x: real, y: real)
    requires c > 0.0 && x <= y
    ensures Times(c, x) <= Times(c, y)
  {
  }

  lemma TimesConstants(c: real)
    ensures Times(c, 0.0) == 0.0 && Times(c, 1.0) == c && Times(c, 0.9) == 0.9 * c && Times(c, 1.1) == 1.1 * c
  {
  }

  lemma TimesStep(c: real, x: real)
    ensures Times(c, x + 1.0) == Times(c, x) + c && Times(c, 2.0 * x) == 2.0 * Times(c, x)
  {
  }

  lemma DoubledStep(t: Timing, n: nat)
    requires IsValid(t)
    ensures Doubled(t, 0) == t.interval && Doubled(t, n + 1) == 2.0 * Doubled(t, n)
  {
    hide Times;
    TimesConstants(t.interval);
    TimesStep(t.interval, PowerOfTwo(n));
  }

  lemma {:induction false} DoubledGrows(t: Timing, m: nat, n: nat)
    requires IsValid(t) && m <= n
    ensures t.interval <= Doubled(t, m) <= Doubled(t, n)
    decreases n
  {
    hide Doubled;
    if m < n {
      DoubledGrows(t, m, n - 1);
      DoubledStep(t, n - 1);
    } else if m > 0 {
      DoubledGrows(t, m - 1, m - 1);
      DoubledStep(t, m - 1);
    } else {
      DoubledStep(t, 0);
    }
  }

  // Without jitter the delay is the capped doubling itself.
  lemma ZeroJitter(t: Timing, failures: nat)
    requires IsValid(t) && failures >= 1
    ensures Delay(t, failures, 0.0) == Base(t, failures)
  {
    hide Doubled, Times;
    DoubledGrows(t, failures - 1, failures - 1);
    assert Tilt(0.0) == 1.0;
    TimesConstants(Base(t, failures));
  }

  // It starts at the interval, doubles up to the cap, and so never falls along a failure run.
  lemma DoublesToCap(t: Timing, failures: nat)
    requires IsValid(t) && failures >= 1
    ensures Delay(t, 1, 0.0) == t.interval
    ensures Delay(t, failures, 0.0) <= Delay(t, failures + 1, 0.0) == Min(t.maxBackoff, 2.0 * Delay(t, failures, 0.0))
  {
    hide Doubled, Delay;
    ZeroJitter(t, 1);
    ZeroJitter(t, failures);
    ZeroJitter(t, failures + 1);
    DoubledStep(t, failures - 1);
    DoubledGrows(t, failures - 1, failures);
  }

  lemma StaysAtCap(t: Timing, failures: nat, later: nat)
    requires IsValid(t) && 1 <= failures <= later && Doubled(t, failures - 1) >= t.maxBackoff
    ensures Delay(t, later, 0.0) == t.maxBackoff
  {
    hide Doubled, Delay;
    DoubledGrows(t, failures - 1, later - 1);
    ZeroJitter(t, later);
  }

  lemma {:induction false} DoubledOutgrows(t: Timing, n: nat)
    requires IsValid(t)
    ensures Doubled(t, n) >= Times(t.interval, n as real)
  {
    hide Doubled, Times;
    TimesConstants(t.interval);
    DoubledGrows(t, 0, n);
    if n == 0 {
    } else {
      DoubledOutgrows(t, n - 1);
      DoubledGrows(t, n - 1, n - 1);
      DoubledStep(t, n - 1);
      TimesStep(t.interval, (n - 1) as real);
    }
  }

  lemma Outgrows(t: Timing, ratio: real, n: nat)
    requires IsValid(t) && Times(t.interval, ratio) == t.maxBackoff && ratio <= n as real
    ensures Doubled(t, n) >= t.maxBackoff
  {
    hide Doubled, Times;
    DoubledOutgrows(t, n);
    TimesMonotone(t.interval, ratio, n as real);
  }

  lemma Ratio(m: real, c: real) returns (r: real)
    requires m > 0.0 && c > 0.0
    ensures r > 0.0 && Times(c, r) == m
  {
    r := m / c;
  }

  // Every failure run that is long enough reaches the cap.
  lemma CapIsReached(t: Timing) returns (failures: nat)
    requires IsValid(t)
    ensures failures >= 1 && forall later: nat :: later >= failures ==> Delay(t, later, 0.0) == t.maxBackoff
  {
    hide Doubled, Delay, Times;
    var ratio := Ratio(t.maxBackoff, t.interval);
    failures := ratio.Floor + 2;
    Outgrows(t, ratio, failures - 1);
    forall later: nat | later >= failures
      ensures Delay(t, later, 0.0) == t.maxBackoff
    {
      StaysAtCap(t, failures, later);
    }
  }

  lemma TiltBand(base: real, jitter: real)
    requires base > 0.0
    ensures 0.9 * base <= Times(base, Tilt(jitter)) <= 1.1 * base
  {
    hide Times, Tilt;
    TiltRange(jitter);
    TimesConstants(base);
    TimesMonotone(base, 0.9, Tilt(jitter));
    TimesMonotone(base, Tilt(jitter), 1.1);
  }

  // With jitter the delay stays within a tenth of the delay without.
  lemma JitterIsBounded(t: Timing, failures: nat, jitter: real)
    requires IsValid(t) && failures >= 1
    ensures 0.9 * Delay(t, failures, 0.0) <= Delay(t, failures, jitter) <= 1.1 * Delay(t, failures, 0.0)
  {
    hide Doubled, Times, Tilt;
    DoubledGrows(t, failures - 1, failures - 1);
    ZeroJitter(t, failures);
    TiltBand(Base(t, failures), jitter);
  }

  // A jitter within a tenth tilts the delay by itself, and a larger one counts as a tenth.
  lemma JitterTilts(t: Timing, failures: nat, jitter: real)
    requires IsValid(t) && failures >= 1
    ensures var j := if jitter < -0.1 then -0.1 else if jitter > 0.1 then 0.1 else jitter;
            var tilted := Times(Delay(t, failures, 0.0), 1.0 + j);
            Delay(t, failures, jitter)
            == if tilted < t.interval then t.interval else if tilted > t.maxBackoff then t.maxBackoff else tilted
  {
    hide Base, Times;
    ZeroJitter(t, failures);
  }

  // The lease is the least one of at least a minute and two intervals.
  lemma LeaseIsLeast(t: Timing, lease: real)
    ensures LeaseSeconds(t) >= 60.0 && LeaseSeconds(t) >= t.interval + t.interval
    ensures lease >= 60.0 && lease >= t.interval + t.interval ==> lease >= LeaseSeconds(t)
  {
  }

  // The lease outlasts every sleep between polls exactly when the cap on the delay is within the lease. The default
  // timing, 30 and 300 seconds, is outside: there the lease can run out while its holder sleeps.
  lemma LeaseOutlastsSleepIff(t: Timing)
    requires IsValid(t)
    ensures (forall failures: nat, jitter: real :: failures >= 1 ==> Delay(t, failures, jitter) <= LeaseSeconds(t))
            <==> t.maxBackoff <= LeaseSeconds(t)
    ensures IsValid(Timing(30.0, 300.0)) && LeaseSeconds(Timing(30.0, 300.0)) == 60.0
  {
    hide Delay;
    var failures := CapIsReached(t);
    assert Delay(t, failures, 0.0) == t.maxBackoff;
    forall f: nat, jitter: real | f >= 1
      ensures Delay(t, f, jitter) <= t.maxBackoff
    {
      DelayBounds(t, f, jitter);
    }
  }
}
