/** Positional numerals, most significant digit first, and the fixed-width
    big- and little-endian byte encodings built from them. */
module Digits {
  import opened Basics

  function Pow(base: nat, k: nat): nat {
    if k == 0 then 1 else base * Pow(base, k - 1)
  }

  /** The k least significant digits of n. */
  function ToBase(n: nat, base: nat, k: nat): (s: seq<nat>)
    requires base >= 2
    ensures |s| == k && forall i :: 0 <= i < k ==> s[i] < base
  {
    seq(k, i requires 0 <= i < k => Digit(n, base, k - 1 - i))
  }

  /** The digit of weight base^j. */
  function Digit(n: nat, base: nat, j: nat): (d: nat)
    requires base >= 2
    ensures d < base
  {
    PowPositive(base, j);
    n / Pow(base, j) % base
  }

  function FromBase(s: seq<nat>, base: nat): nat {
    if s == [] then 0 else FromBase(s[..|s| - 1], base) * base + s[|s| - 1]
  }

  ghost predicate AreDigits(s: seq<nat>, base: nat) {
    forall i :: 0 <= i < |s| ==> s[i] < base
  }

  lemma MulLe(a: nat, b: nat, c: nat)
    ensures a <= b ==> a * c <= b * c
  {}

  lemma DivMod(n: nat, base: nat)
    requires base >= 1
    ensures n == (n / base) * base + n % base && n % base < base
  {}

  lemma {:induction false} PowPositive(base: nat, k: nat)
    requires base >= 1
    ensures Pow(base, k) >= 1
  {
    if k > 0 {
      PowPositive(base, k - 1);
      MulLe(1, Pow(base, k - 1), base);
    }
  }

  lemma SplitLast(q: nat, d: nat, base: nat)
    requires base >= 2 && d < base
    ensures (q * base + d) / base == q && (q * base + d) % base == d
  {
    var n := q * base + d;
    var p := n / base;
    DivMod(n, base);
    MulLe(p + 1, q, base);
    MulLe(q + 1, p, base);
    assert (p + 1) * base == p * base + base && (q + 1) * base == q * base + base;
  }

  lemma DivDiv(n: nat, base: nat, p: nat)
    requires base >= 2 && p >= 1
    ensures base * p >= 2 && n / (base * p) == n / base / p
  {
    var m, r0 := n / base, n % base;
    var q, r1 := m / p, m % p;
    DivMod(n, base);
    DivMod(m, p);
    MulLe(1, p, base);
    MulLe(r1 + 1, p, base);
    assert (r1 + 1) * base == r1 * base + base;
    assert (q * p + r1) * base == q * (base * p) + r1 * base;
    SplitLast(q, r1 * base + r0, base * p);
  }

  lemma DigitShift(n: nat, base: nat, j: nat)
    requires base >= 2
    ensures Digit(n, base, j + 1) == Digit(n / base, base, j)
  {
    PowPositive(base, j);
    DivDiv(n, base, Pow(base, j));
  }

  lemma ToBaseSnoc(n: nat, base: nat, k: nat)
    requires base >= 2 && k > 0
    ensures ToBase(n, base, k) == ToBase(n / base, base, k - 1) + [n % base]
  {
    var long, short := ToBase(n, base, k), ToBase(n / base, base, k - 1) + [n % base];
    forall i | 0 <= i < k ensures long[i] == short[i] {
      if i < k - 1 {
        DigitShift(n, base, k - 2 - i);
      } else {
        assert Digit(n, base, 0) == n % base;
      }
    }
  }

  lemma QuotientBound(n: nat, base: nat, p: nat)
    requires base >= 2 && n < base * p
    ensures n / base < p
  {
    DivMod(n, base);
    MulLe(p, n / base, base);
  }

  lemma FromBaseSnoc(s: seq<nat>, d: nat, base: nat)
    ensures FromBase(s + [d], base) == FromBase(s, base) * base + d
  {
    assert (s + [d])[..|s|] == s;
  }

  lemma {:induction false} DigitsThenValue(n: nat, base: nat, k: nat)
    requires base >= 2 && n < Pow(base, k)
    ensures FromBase(ToBase(n, base, k), base) == n
  {
    if k > 0 {
      QuotientBound(n, base, Pow(base, k - 1));
      DigitsThenValue(n / base, base, k - 1);
      LastDigitJoins(n, base, k);
    }
  }

  lemma LastDigitJoins(n: nat, base: nat, k: nat)
    requires base >= 2 && k > 0
    requires FromBase(ToBase(n / base, base, k - 1), base) == n / base
    ensures FromBase(ToBase(n, base, k), base) == n
  {
    ToBaseSnoc(n, base, k);
    FromBaseSnoc(ToBase(n / base, base, k - 1), n % base, base);
    DivMod(n, base);
  }

  lemma {:induction false} ValueThenDigits(s: seq<nat>, base: nat)
    requires base >= 2 && AreDigits(s, base)
    ensures FromBase(s, base) < Pow(base, |s|)
    ensures ToBase(FromBase(s, base), base, |s|) == s
  {
    if s != [] {
      var init, last := s[..|s| - 1], s[|s| - 1];
      ValueThenDigits(init, base);
      SnocDigits(init, last, base, FromBase(init, base));
      assert s == init + [last];
    }
  }

  lemma SnocDigits(init: seq<nat>, last: nat, base: nat, v: nat)
    requires base >= 2 && last < base
    requires v < Pow(base, |init|) && ToBase(v, base, |init|) == init
    ensures v * base + last < Pow(base, |init| + 1)
    ensures ToBase(v * base + last, base, |init| + 1) == init + [last]
  {
    SnocToBase(v, last, base, |init|);
    SnocBelow(v, last, base, |init|);
  }

  lemma SnocBelow(v: nat, last: nat, base: nat, k: nat)
    requires v < Pow(base, k) && last < base
    ensures v * base + last < Pow(base, k + 1)
  {
    SnocBound(v, last, base, Pow(base, k));
  }

  lemma SnocToBase(q: nat, last: nat, base: nat, k: nat)
    requires base >= 2 && last < base
    ensures ToBase(q * base + last, base, k + 1) == ToBase(q, base, k) + [last]
  {
    SplitLast(q, last, base);
    ToBaseSnoc(q * base + last, base, k + 1);
  }

  lemma SnocBound(q: nat, d: nat, base: nat, p: nat)
    requires q < p && d < base
    ensures q * base + d < base * p
  {
    MulLe(q + 1, p, base);
    assert (q + 1) * base == q * base + base;
  }

  /** A number with m trailing zero digits. */
  lemma {:induction false} TrailingZeros(q: nat, base: nat, k: nat, m: nat)
    requires base >= 2 && m <= k
    ensures ToBase(q * Pow(base, m), base, k) == ToBase(q, base, k - m) + seq(m, _ => 0)
  {
    if m > 0 {
      var r := q * Pow(base, m - 1);
      assert q * Pow(base, m) == r * base by {
        assert q * (base * Pow(base, m - 1)) == (q * Pow(base, m - 1)) * base;
      }
      SplitLast(r, 0, base);
      ToBaseSnoc(r * base, base, k);
      TrailingZeros(q, base, k - 1, m - 1);
      assert seq(m, _ => 0) == seq(m - 1, _ => 0) + [0];
    } else {
      assert seq<nat>(0, _ => 0) == [];
    }
  }

  lemma {:induction false} FromBaseZeros(s: seq<nat>, base: nat, m: nat)
    ensures FromBase(s + seq(m, _ => 0), base) == FromBase(s, base) * Pow(base, m)
  {
    if m == 0 {
      assert s + seq(m, _ => 0) == s;
    } else {
      FromBaseZeros(s, base, m - 1);
      assert s + seq(m, _ => 0) == s + seq(m - 1, _ => 0) + [0];
      FromBaseSnoc(s + seq(m - 1, _ => 0), 0, base);
      var v, p := FromBase(s, base), Pow(base, m - 1);
      assert v * p * base == v * (base * p);
    }
  }

  // Fixed-width integers on the wire

  function Be(n: nat, width: nat): (s: Bytes)
    ensures |s| == width
  {
    ToBase(n, 0x100, width)
  }

  function FromBe(s: Bytes): nat {
    FromBase(s, 0x100)
  }

  function Reverse<T>(s: seq<T>): (r: seq<T>)
    ensures |r| == |s|
    ensures forall i :: 0 <= i < |s| ==> r[i] == s[|s| - 1 - i]
  {
    seq(|s|, i requires 0 <= i < |s| => s[|s| - 1 - i])
  }

  function Le(n: nat, width: nat): (s: Bytes)
    ensures |s| == width
  {
    Reverse(Be(n, width))
  }

  function FromLe(s: Bytes): nat {
    FromBe(Reverse(s))
  }

  lemma FixedWidthRoundTrip(n: nat, width: nat)
    requires n < Pow(0x100, width)
    ensures FromBe(Be(n, width)) == n && FromLe(Le(n, width)) == n
  {
    DigitsThenValue(n, 0x100, width);
    assert Reverse(Reverse(Be(n, width))) == Be(n, width);
  }

  lemma Widths()
    ensures Pow(0x100, 1) == 0x100 && Pow(0x100, 2) == 0x1_0000
    ensures Pow(0x100, 4) == U32_LIMIT && Pow(0x100, 8) == U64_LIMIT
  {
    assert Pow(0x100, 3) == 0x100_0000;
    assert Pow(0x100, 5) == 0x100_0000_0000;
    assert Pow(0x100, 6) == 0x1_0000_0000_0000;
    assert Pow(0x100, 7) == 0x100_0000_0000_0000;
  }

  lemma PowersOf256()
    ensures Pow(0x100, 0) == 1 && Pow(0x100, 1) == 0x100 && Pow(0x100, 2) == 0x1_0000 && Pow(0x100, 3) == 0x100_0000
  {}

  lemma {:induction false} PowAtLeast(i: nat)
    requires i >= 2
    ensures Pow(0x100, i) >= 0x1_0000
  {
    PowersOf256();
    if i > 2 {
      PowAtLeast(i - 1);
    }
  }

  /** A small number, little end first. */
  lemma SmallLittleEndian(n: nat, width: nat)
    requires n < 0x1_0000 && width >= 2
    ensures Le(n, width) == [n % 0x100, n / 0x100] + seq(width - 2, _ => 0)
  {
    var s := [n % 0x100, n / 0x100] + seq(width - 2, _ => 0);
    forall i | 0 <= i < width ensures Le(n, width)[i] == s[i] {
      assert Le(n, width)[i] == Digit(n, 0x100, i);
      PowersOf256();
      if i >= 2 {
        PowAtLeast(i);
        QuotientOfSmall(n, Pow(0x100, i));
      }
    }
  }

  lemma QuotientOfSmall(n: nat, p: nat)
    requires n < p
    ensures n / p == 0
  {}
}
