/** The delays of a reconnection with exponential backoff, in nanoseconds. */
module Backoff {
  import opened Basics
  import opened Digits

  const MS: nat := 1_000_000
  const U64_MAX: nat := U64_LIMIT - 1

  datatype ReconnectConfig = ReconnectConfig(maxRetries: nat, initialDelay: nat, maxDelay: nat, factor: real)

  /** `as_millis`. */
  function Millis(d: nat): nat {
    d / MS
  }

  /** A product cast to u64: the fraction is dropped, both ends saturate. */
  function Scaled(m: nat, factor: real): nat {
    var p := m as real * factor;
    if p < 0.0 then 0 else if p >= U64_LIMIT as real then U64_MAX else p.Floor
  }

  function NextDelay(c: ReconnectConfig, d: nat): nat {
    Min(Scaled(Millis(d), c.factor) * MS, c.maxDelay)
  }

  /** The k-th sleep. */
  function Delay(c: ReconnectConfig, k: nat): nat {
    if k == 0 then c.initialDelay else NextDelay(c, Delay(c, k - 1))
  }

  /** The first n sleeps. */
  function Sleeps(delay: nat -> nat, n: nat): (s: seq<nat>)
    ensures |s| == n && forall k :: 0 <= k < n ==> s[k] == delay(k)
  {
    seq(n, k requires 0 <= k < n => delay(k))
  }

  function DelaysOf(c: ReconnectConfig): nat -> nat {
    k => Delay(c, k)
  }

  lemma DelayCapped(c: ReconnectConfig, k: nat)
    requires c.initialDelay <= c.maxDelay
    ensures Delay(c, k) <= c.maxDelay
  {}

  // Growth

  lemma ScaledMonotone(m: nat, n: nat, factor: real)
    requires m <= n && factor >= 1.0
    ensures Scaled(m, factor) <= Scaled(n, factor)
  {
    RealMulLe(m as real, n as real, factor);
  }

  lemma RealMulLe(a: real, b: real, f: real)
    requires a <= b && f >= 0.0
    ensures a * f <= b * f
  {}

  lemma ScaledGrows(m: nat, factor: real)
    requires m <= U64_MAX && factor >= 1.0
    ensures Scaled(m, factor) >= m
  {
    RealMulLe(1.0, factor, m as real);
    assert 1.0 * m as real == m as real && factor * m as real == m as real * factor;
  }

  lemma MillisMonotone(d: nat, e: nat)
    requires d <= e
    ensures Millis(d) <= Millis(e)
  {}

  lemma MillisOfWhole(m: nat)
    ensures Millis(m * MS) == m
  {}

  lemma ScaledBound(m: nat, factor: real)
    ensures Scaled(m, factor) <= U64_MAX
  {}

  /** After the first step the delay never falls again. */
  lemma StepGrows(c: ReconnectConfig, d: nat)
    requires c.factor >= 1.0 && d <= c.maxDelay
    ensures NextDelay(c, NextDelay(c, d)) >= NextDelay(c, d)
  {
    var s := Scaled(Millis(d), c.factor);
    ScaledBound(Millis(d), c.factor);
    if s * MS < c.maxDelay {
      MillisOfWhole(s);
      ScaledGrows(s, c.factor);
    } else {
      MillisMonotone(d, c.maxDelay);
      ScaledMonotone(Millis(d), Millis(c.maxDelay), c.factor);
    }
  }

  lemma {:induction false} LaterGrow(c: ReconnectConfig, j: nat, k: nat)
    requires c.factor >= 1.0 && c.initialDelay <= c.maxDelay && 1 <= j <= k
    ensures Delay(c, j) <= Delay(c, k)
    decreases k
  {
    if j < k {
      LaterGrow(c, j, k - 1);
      DelayCapped(c, k - 2);
      StepGrows(c, Delay(c, k - 2));
    }
  }

  /** The n sleeps never get shorter exactly when there is at most one, or the
      first step does not shrink the initial delay. A step works in whole
      milliseconds, so it can. */
  lemma NonDecreasingExactly(c: ReconnectConfig, n: nat)
    requires c.factor >= 1.0 && c.initialDelay <= c.maxDelay
    ensures (forall j, k :: 0 <= j <= k < n ==> Delay(c, j) <= Delay(c, k))
       <==> n < 2 || Scaled(Millis(c.initialDelay), c.factor) * MS >= c.initialDelay
  {
    FirstStep(c);
    if n >= 2 {
      if Delay(c, 0) <= Delay(c, 1) {
        forall j, k | 0 <= j <= k < n ensures Delay(c, j) <= Delay(c, k) {
          if k > 0 {
            LaterGrow(c, Max(j, 1), k);
          }
        }
      } else {
        var j, k := 0, 1;
        assert Delay(c, j) > Delay(c, k);
      }
    }
  }

  lemma FirstStep(c: ReconnectConfig)
    requires c.initialDelay <= c.maxDelay
    ensures Delay(c, 0) <= Delay(c, 1) <==> Scaled(Millis(c.initialDelay), c.factor) * MS >= c.initialDelay
  {
    assert Delay(c, 1) == NextDelay(c, Delay(c, 0));
  }

  /** So whole milliseconds are safe. */
  lemma WholeMillisGrow(c: ReconnectConfig, n: nat)
    requires c.factor >= 1.0 && c.initialDelay <= c.maxDelay
    requires c.initialDelay % MS == 0 && Millis(c.initialDelay) <= U64_MAX
    ensures forall j, k :: 0 <= j <= k < n ==> Delay(c, j) <= Delay(c, k)
  {
    ScaledGrows(Millis(c.initialDelay), c.factor);
    NonDecreasingExactly(c, n);
  }

  /** 1.5 ms with a factor of 1.2 is followed by 1 ms. */
  lemma ShrinkingExample()
    ensures var c := ReconnectConfig(5, 1_500_000, 10_000 * MS, 1.2);
      Delay(c, 1) == MS < Delay(c, 0)
  {
    var c := ReconnectConfig(5, 1_500_000, 10_000 * MS, 1.2);
    assert Scaled(1, 1.2) == 1;
    assert Delay(c, 1) == NextDelay(c, Delay(c, 0));
  }

  /** A product as a whole number: its floor, held within u64. */
  lemma ScaledExactly(m: nat, factor: real, r: nat)
    ensures Scaled(m, factor) == r <==>
      || (m as real * factor < 0.0 && r == 0)
      || (0.0 <= m as real * factor < 18_446_744_073_709_551_616.0
          && r as real <= m as real * factor < r as real + 1.0)
      || (m as real * factor >= 18_446_744_073_709_551_616.0 && r == 18_446_744_073_709_551_615)
  {}

  /** One step, in whole milliseconds: those of the delay times the factor, cut to
      a whole number and then to the maximum. */
  lemma StepExactly(c: ReconnectConfig, d: nat, m: nat, r: nat)
    requires m * 1_000_000 <= d < (m + 1) * 1_000_000
    requires 0.0 <= m as real * c.factor < 18_446_744_073_709_551_616.0
    requires r as real <= m as real * c.factor < r as real + 1.0
    ensures NextDelay(c, d) == if r * 1_000_000 <= c.maxDelay then r * 1_000_000 else c.maxDelay
  {
    ScaledExactly(m, c.factor, r);
  }

  /** The delays of the enhanced handler: 50 ms, factor 1.5, at most 15 s. */
  lemma EnhancedHandlerDelays(c: ReconnectConfig)
    requires c.initialDelay == 50 * MS && c.maxDelay == 15_000 * MS && c.factor == 1.5
    ensures Delay(c, 1) == 75 * MS && Delay(c, 2) == 112 * MS && Delay(c, 3) == 168 * MS && Delay(c, 4) == 252 * MS
    ensures Delay(c, 5) == 378 * MS && Delay(c, 6) == 567 * MS
  {
    StepExactly(c, Delay(c, 0), 50, 75);
    StepExactly(c, Delay(c, 1), 75, 112);
    StepExactly(c, Delay(c, 2), 112, 168);
    StepExactly(c, Delay(c, 3), 168, 252);
    StepExactly(c, Delay(c, 4), 252, 378);
    StepExactly(c, Delay(c, 5), 378, 567);
  }

  // Doubling

  lemma ScaledTwice(m: nat)
    ensures Scaled(m, 2.0) == Min(2 * m, U64_MAX)
  {
    assert m as real * 2.0 == (2 * m) as real;
  }

  /** From the first step on: whole milliseconds doubled, capped twice. */
  function Doubled(c: ReconnectConfig, k: nat): nat {
    Min(Min(Millis(c.initialDelay) * Pow(2, k), U64_MAX) * MS, c.maxDelay)
  }

  lemma NextDoubled(maxDelay: nat, a: nat)
    requires a >= 1 ==> maxDelay >= MS
    ensures var d := Min(Min(a, U64_MAX) * MS, maxDelay);
      Min(Min(2 * Millis(d), U64_MAX) * MS, maxDelay) == Min(Min(2 * a, U64_MAX) * MS, maxDelay)
  {
    var b := Min(a, U64_MAX);
    if b * MS <= maxDelay {
      MillisOfWhole(b);
    } else {
      assert 2 * Millis(maxDelay) * MS >= maxDelay;
      assert Min(2 * Millis(maxDelay), U64_MAX) * MS >= maxDelay;
    }
  }

  lemma StepDoubles(c: ReconnectConfig, d: nat, a: nat)
    requires c.factor == 2.0 && (a >= 1 ==> c.maxDelay >= MS)
    requires d == Min(Min(a, U64_MAX) * MS, c.maxDelay)
    ensures NextDelay(c, d) == Min(Min(2 * a, U64_MAX) * MS, c.maxDelay)
  {
    ScaledTwice(Millis(d));
    NextDoubled(c.maxDelay, a);
  }

  lemma {:induction false} DoublingDelays(c: ReconnectConfig, k: nat)
    requires c.factor == 2.0 && c.initialDelay <= c.maxDelay && k >= 1
    ensures Delay(c, k) == Doubled(c, k)
  {
    var m := Millis(c.initialDelay);
    if k == 1 {
      ScaledTwice(m);
      assert Pow(2, 1) == 2 * Pow(2, 0);
      assert Delay(c, 1) == NextDelay(c, Delay(c, 0));
    } else {
      DoublingDelays(c, k - 1);
      var a := m * Pow(2, k - 1);
      TwiceAgain(m, k);
      PositiveIfFactor(m, Pow(2, k - 1));
      StepDoubles(c, Delay(c, k - 1), a);
    }
  }

  lemma TwiceAgain(m: nat, k: nat)
    requires k >= 1
    ensures m * Pow(2, k) == 2 * (m * Pow(2, k - 1))
  {
    var p := Pow(2, k - 1);
    assert m * (2 * p) == 2 * (m * p);
  }

  lemma PositiveIfFactor(m: nat, p: nat)
    ensures m * p >= 1 ==> m >= 1
  {}

  /** The k-th sleep is min(initial * 2^k, max), for all n sleeps, exactly when
      there is at most one, the initial delay is whole milliseconds, or one
      step already reaches the maximum. */
  lemma DoublingExactly(c: ReconnectConfig, n: nat)
    requires c.factor == 2.0 && c.initialDelay <= c.maxDelay <= U64_MAX * MS
    ensures (forall k :: 0 <= k < n ==> Delay(c, k) == Min(c.initialDelay * Pow(2, k), c.maxDelay))
       <==> n < 2 || c.initialDelay % MS == 0 || 2 * Millis(c.initialDelay) * MS >= c.maxDelay
  {
    assert Pow(2, 0) == 1 && Pow(2, 1) == 2;
    if n >= 2 {
      DoublingDelays(c, 1);
    }
    if c.initialDelay % MS == 0 || 2 * Millis(c.initialDelay) * MS >= c.maxDelay {
      forall k | 0 <= k < n ensures Delay(c, k) == Min(c.initialDelay * Pow(2, k), c.maxDelay) {
        if k > 0 {
          DoublingDelays(c, k);
          DoubledIsPromised(c.initialDelay, c.maxDelay, k);
        }
      }
    }
  }

  lemma DoubledIsPromised(init: nat, max: nat, k: nat)
    requires init <= max <= U64_MAX * MS && k >= 1
    requires init % MS == 0 || 2 * Millis(init) * MS >= max
    ensures Min(Min(Millis(init) * Pow(2, k), U64_MAX) * MS, max) == Min(init * Pow(2, k), max)
  {
    var m, p := Millis(init), Pow(2, k);
    if init % MS == 0 {
      Reorder(m, p);
      CapOnce(m * p, max);
    } else {
      PowPositive(2, k - 1);
      BothReached(init, m, p, max);
    }
  }

  lemma Reorder(m: nat, p: nat)
    ensures (m * MS) * p == (m * p) * MS
  {}

  lemma CapOnce(a: nat, max: nat)
    requires max <= U64_MAX * MS
    ensures Min(Min(a, U64_MAX) * MS, max) == Min(a * MS, max)
  {}

  lemma BothReached(init: nat, m: nat, p: nat, max: nat)
    requires max <= U64_MAX * MS && p >= 2 && m * MS <= init && 2 * m * MS >= max
    ensures Min(Min(m * p, U64_MAX) * MS, max) == max == Min(init * p, max)
  {
    MulLe(2, p, m);
    MulLe(2, p, init);
    CapOnce(m * p, max);
  }
}
