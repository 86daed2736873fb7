/** One-time passwords in time: `codes(k)` is the password of the k-th
    30-second step, for whatever secret the party holds. */
module TotpWindow {
  import opened Basics

  type Codes = nat -> nat

  const STEP_SECS: nat := 30
  const LAST_SECOND: nat := U64_LIMIT - 1

  function Generate(codes: Codes, timestamp: nat): nat {
    codes(timestamp / STEP_SECS)
  }

  function SaturatingSub(a: nat, b: nat): nat {
    if a < b then 0 else a - b
  }

  function SaturatingAdd64(a: nat, b: nat): nat {
    Min(a + b, LAST_SECOND)
  }

  predicate InWindow(step: nat, now: nat) {
    SaturatingSub(now / STEP_SECS, 1) <= step <= Min(now / STEP_SECS + 1, LAST_SECOND / STEP_SECS)
  }

  /** `code` belongs to the verifier's step, the one before or the one after,
      where those steps exist. */
  ghost predicate Accepts(codes: Codes, now: nat, code: nat) {
    exists step: nat :: InWindow(step, now) && codes(step) == code
  }

  /** The step whose code the i-th window compares against. */
  function StepAt(now: nat, i: int): nat {
    Max(0, Min(now / STEP_SECS + i, LAST_SECOND / STEP_SECS))
  }

  lemma SaturatedStep(now: nat)
    requires now < U64_LIMIT
    ensures SaturatingSub(now, STEP_SECS) / STEP_SECS == StepAt(now, -1)
    ensures now / STEP_SECS == StepAt(now, 0)
    ensures SaturatingAdd64(now, STEP_SECS) / STEP_SECS == StepAt(now, 1)
    ensures forall i :: -1 <= i <= 1 ==> InWindow(StepAt(now, i), now)
    ensures forall step: nat :: InWindow(step, now) ==> StepAt(now, step - now / STEP_SECS) == step
  {}

  method Verify(codes: Codes, now: nat, code: nat) returns (ok: bool)
    requires now < U64_LIMIT
    ensures ok <==> Accepts(codes, now, code)
  {
    SaturatedStep(now);
    var i := -1;
    while i <= 1
      invariant -1 <= i <= 2
      invariant forall j :: -1 <= j < i ==> codes(StepAt(now, j)) != code
    {
      var ts := if i < 0 then SaturatingSub(now, STEP_SECS)
                else if i > 0 then SaturatingAdd64(now, STEP_SECS)
                else now;
      assert ts / STEP_SECS == StepAt(now, i);
      if Generate(codes, ts) == code {
        return true;
      }
      i := i + 1;
    }
    return false;
  }

  /** The accepted codes are those of the 30-second step of the verifier's clock
      and of the two next to it, as far as the u64 clock reaches. */
  lemma AcceptsExactly(codes: Codes, now: nat, code: nat)
    requires now < U64_LIMIT
    ensures Accepts(codes, now, code) <==>
      exists step: nat ::
        now / 30 - 1 <= step <= now / 30 + 1 && step <= (U64_LIMIT - 1) / 30 && codes(step) == code
  {
    forall step: nat ensures InWindow(step, now) <==>
      now / 30 - 1 <= step <= now / 30 + 1 && step <= (U64_LIMIT - 1) / 30 {}
  }

  /** A code generated within 30 seconds of the verifier's clock is accepted,
      at both ends of the u64 clock. */
  lemma DriftAccepted(codes: Codes, clientNow: nat, serverNow: nat)
    requires clientNow < U64_LIMIT && serverNow < U64_LIMIT
    requires -30 <= clientNow - serverNow <= 30
    ensures Accepts(codes, serverNow, Generate(codes, clientNow))
  {
    assert InWindow(clientNow / STEP_SECS, serverNow);
  }
}

/** Code generation: dynamic truncation of an HMAC digest.
    HMAC-SHA1 is a parameter: any function yielding 20-byte digests. */
module Totp {
  import opened Basics
  import opened Digits
  import opened TotpWindow

  type Digest = d: Bytes | |d| == 20 witness seq(20, _ => 0)
  type Mac = (Bytes, Bytes) -> Digest

  datatype Totp = Totp(secret: Bytes, digits: nat)

  // Bitwise operators on naturals, bit by bit

  function BitAnd(a: nat, b: nat): nat {
    if a == 0 || b == 0 then 0
    else 2 * BitAnd(a / 2, b / 2) + (if a % 2 == 1 && b % 2 == 1 then 1 else 0)
  }

  function BitOr(a: nat, b: nat): nat {
    if a == 0 && b == 0 then 0
    else 2 * BitOr(a / 2, b / 2) + (if a % 2 == 1 || b % 2 == 1 then 1 else 0)
  }

  /** `x << k` on u32. */
  function Shl32(x: nat, k: nat): nat {
    x * Pow(2, k) % U32_LIMIT
  }

  lemma {:induction false} MaskIsRemainder(a: nat, mask: nat, k: nat)
    requires Pow(2, k) == mask + 1
    ensures BitAnd(a, mask) == a % (mask + 1)
  {
    if a != 0 && k > 0 {
      MaskIsRemainder(a / 2, mask / 2, k - 1);
      RemainderByDouble(a, mask / 2 + 1);
    }
  }

  lemma RemainderByDouble(a: nat, p: nat)
    requires p >= 1
    ensures a % (2 * p) == 2 * (a / 2 % p) + a % 2
  {
    var q, r := a / 2 / p, a / 2 % p;
    assert a / 2 == q * p + r;
    assert a == q * (2 * p) + (2 * r + a % 2) by {
      assert q * (2 * p) == 2 * (q * p);
    }
    SplitLast(q, 2 * r + a % 2, 2 * p);
  }

  lemma {:induction false} DisjointOrIsSum(q: nat, b: nat, k: nat)
    requires b < Pow(2, k)
    ensures BitOr(q * Pow(2, k), b) == q * Pow(2, k) + b
  {
    var a := q * Pow(2, k);
    if k == 0 {
      OrZero(q);
    } else {
      var h := q * Pow(2, k - 1);
      assert a == 2 * h by { assert q * (2 * Pow(2, k - 1)) == 2 * (q * Pow(2, k - 1)); }
      assert a / 2 == h && a % 2 == 0;
      DisjointOrIsSum(q, b / 2, k - 1);
    }
  }

  lemma {:induction false} OrZero(a: nat)
    ensures BitOr(a, 0) == a
  {
    if a != 0 {
      OrZero(a / 2);
    }
  }

  lemma PowersOfTwo()
    ensures Pow(2, 4) == 16 && Pow(2, 7) == 128 && Pow(2, 8) == 0x100
    ensures Pow(2, 16) == 0x1_0000 && Pow(2, 24) == 0x100_0000
  {
    assert Pow(2, 5) == 32 && Pow(2, 10) == 0x400 && Pow(2, 13) == 0x2000;
    assert Pow(2, 18) == 0x4_0000 && Pow(2, 21) == 0x20_0000;
  }

  // Code generation

  /** Low nibble of the last digest byte. */
  function Offset(h: Digest): (o: nat)
    ensures o + 3 < |h|
  {
    PowersOfTwo();
    MaskIsRemainder(h[19], 0x0f, 4);
    BitAnd(h[19], 0x0f)
  }

  function Assemble(p0: nat, p1: nat, p2: nat, p3: nat): nat {
    var b1 := Shl32(BitAnd(p0, 0x7f), 24);
    var b2 := Shl32(BitAnd(p1, 0xff), 16);
    var b3 := Shl32(BitAnd(p2, 0xff), 8);
    var b4 := BitAnd(p3, 0xff);
    BitOr(BitOr(BitOr(b1, b2), b3), b4)
  }

  function Truncate(h: Digest): nat {
    var o := Offset(h);
    Assemble(h[o], h[o + 1], h[o + 2], h[o + 3])
  }

  /** The masked shift-or is the 31-bit big-endian number of RFC 4226, section 5.3. */
  lemma TruncationIsRfc4226(h: Digest)
    ensures var o := h[19] % 16;
            Truncate(h) == FromBe(h[o..o + 4]) % 0x8000_0000
  {
    OffsetIsLowNibble(h);
    var o := h[19] % 16;
    var s: seq<nat> := h[o..o + 4];
    AssembleIsSum(s[0], s[1], s[2], s[3]);
    FourDigits(s);
    DropTopBit(s[0], s[1] * 0x1_0000 + s[2] * 0x100 + s[3]);
  }

  lemma OffsetIsLowNibble(h: Digest)
    ensures Offset(h) == h[19] % 16
  {
    PowersOfTwo();
    MaskIsRemainder(h[19], 0x0f, 4);
  }

  lemma DropTopBit(high: nat, low: nat)
    requires low < 0x100_0000
    ensures (high * 0x100_0000 + low) % 0x8000_0000 == high % 128 * 0x100_0000 + low
  {
    var q, r := high / 128, high % 128;
    assert high == 128 * q + r;
    assert high * 0x100_0000 + low == q * 0x8000_0000 + (r * 0x100_0000 + low);
    SplitLast(q, r * 0x100_0000 + low, 0x8000_0000);
  }

  lemma SmallRemainder(x: nat, m: nat)
    requires x < m
    ensures x % m == x
  {}

  lemma ShiftWithoutOverflow(x: nat, k: nat, scale: nat)
    requires Pow(2, k) == scale && x * scale < U32_LIMIT
    ensures Shl32(x, k) == x * scale
  {
    SmallRemainder(x * scale, U32_LIMIT);
  }

  lemma DisjointOr(q: nat, b: nat, k: nat, scale: nat)
    requires Pow(2, k) == scale && b < scale
    ensures BitOr(q * scale, b) == q * scale + b
  {
    DisjointOrIsSum(q, b, k);
  }

  lemma ShiftOrIsSum(p0: nat, p1: nat, p2: nat, p3: nat)
    requires p0 < 128 && p1 < 0x100 && p2 < 0x100 && p3 < 0x100
    ensures BitOr(BitOr(BitOr(Shl32(p0, 24), Shl32(p1, 16)), Shl32(p2, 8)), p3)
         == p0 * 0x100_0000 + p1 * 0x1_0000 + p2 * 0x100 + p3
  {
    PowersOfTwo();
    ShiftWithoutOverflow(p0, 24, 0x100_0000);
    ShiftWithoutOverflow(p1, 16, 0x1_0000);
    ShiftWithoutOverflow(p2, 8, 0x100);
    var q1 := p0 * 0x100 + p1;
    var q2 := q1 * 0x100 + p2;
    DisjointOr(p0, p1 * 0x1_0000, 24, 0x100_0000);
    DisjointOr(q1, p2 * 0x100, 16, 0x1_0000);
    DisjointOr(q2, p3, 8, 0x100);
  }

  lemma MaskSevenBits(p: nat)
    ensures BitAnd(p, 0x7f) == p % 128
  {
    PowersOfTwo();
    MaskIsRemainder(p, 0x7f, 7);
  }

  lemma MaskIsIdentity(p: nat, mask: nat, k: nat)
    requires Pow(2, k) == mask + 1 && p <= mask
    ensures BitAnd(p, mask) == p
  {
    MaskIsRemainder(p, mask, k);
  }

  lemma AssembleIsSum(p0: nat, p1: nat, p2: nat, p3: nat)
    requires p0 < 0x100 && p1 < 0x100 && p2 < 0x100 && p3 < 0x100
    ensures Assemble(p0, p1, p2, p3) == p0 % 128 * 0x100_0000 + p1 * 0x1_0000 + p2 * 0x100 + p3
  {
    MaskSevenBits(p0);
    assert Pow(2, 8) == 0x100;
    MaskIsIdentity(p1, 0xff, 8);
    MaskIsIdentity(p2, 0xff, 8);
    MaskIsIdentity(p3, 0xff, 8);
    ShiftOrIsSum(p0 % 128, p1, p2, p3);
  }

  lemma FourDigits(s: seq<nat>)
    requires |s| == 4
    ensures FromBase(s, 0x100) == s[0] * 0x100_0000 + s[1] * 0x1_0000 + s[2] * 0x100 + s[3]
  {
    assert s[..3][..2][..1] == [] + [s[0]];
    FromBaseSnoc([], s[0], 0x100);
    assert FromBase(s[..3][..2][..1], 0x100) == s[0];
    assert FromBase(s[..3][..2], 0x100) == s[0] * 0x100 + s[1];
  }

  /** The code for a time step. `10u32.pow(digits)` needs digits below 10. */
  function CodeOfStep(t: Totp, mac: Mac, step: nat): (code: nat)
    requires t.digits <= 9
    ensures code < Pow(10, t.digits)
  {
    PowPositive(10, t.digits);
    Truncate(mac(t.secret, Be(step, 8))) % Pow(10, t.digits)
  }

  /** The generator as a function of the time step. */
  function StepCodes(t: Totp, mac: Mac): Codes
    requires t.digits <= 9
  {
    (step: nat) => CodeOfStep(t, mac, step)
  }

  /** The one-time password of RFC 4226, section 5.3, for a counter: the HMAC of
      its eight bytes, truncated at the offset its last byte names to 31 bits, and
      reduced to the digits asked for. */
  ghost predicate IsOneTimePassword(mac: Mac, secret: Bytes, digits: nat, counter: nat, code: nat) {
    exists m: Bytes :: |m| == 8 && FromBe(m) == counter && Truncates(mac(secret, m), digits, code)
  }

  ghost predicate Truncates(h: Digest, digits: nat, code: nat)
  {
    var o := h[19] % 16;
    Pow(10, digits) > 0 && code == FromBe(h[o..o + 4]) % 0x8000_0000 % Pow(10, digits)
  }

  /** The code of a step is that password, and nothing else is. */
  lemma CodeExactly(t: Totp, mac: Mac, step: nat, code: nat)
    requires t.digits <= 9 && step < U64_LIMIT
    ensures CodeOfStep(t, mac, step) == code <==> IsOneTimePassword(mac, t.secret, t.digits, step, code)
  {
    Widths();
    FixedWidthRoundTrip(step, 8);
    PowPositive(10, t.digits);
    var m0 := Be(step, 8);
    TruncationIsRfc4226(mac(t.secret, m0));
    if m: Bytes :| |m| == 8 && FromBe(m) == step && Truncates(mac(t.secret, m), t.digits, code) {
      ValueThenDigits(m, 0x100);
      assert m == m0;
    }
    assert Truncates(mac(t.secret, m0), t.digits, CodeOfStep(t, mac, step));
  }
}
