/** Base32 (RFC 4648, section 6) as the strict padded coder behaves, and the
    forgiving reader of TOTP secrets built on it. */
module Base32 {
  import opened Basics
  import opened Digits

  // Alphabet

  function Symbol(v: nat): (c: char)
    requires v < 32
    ensures c != '=' && c != ' ' && Value(c) == Some(v) && Upper(c) == c && (c as nat) < 0x80
  {
    if v < 26 then 'A' + v as char else '2' + (v - 26) as char
  }

  function Value(c: char): Option<nat> {
    if 'A' <= c <= 'Z' then Some(c as nat - 'A' as nat)
    else if '2' <= c <= '7' then Some(26 + c as nat - '2' as nat)
    else None
  }

  function Upper(c: char): char {
    if 'a' <= c <= 'z' then c - 'a' + 'A' else c
  }

  // Blocks of five bytes and eight characters

  function SymbolsFor(n: nat): nat {
    (8 * n + 4) / 5
  }

  /** The block as a 40-bit number, missing bytes taken as zero. */
  function BlockNumber(g: Bytes): nat
    requires |g| <= 5
  {
    FromBase(g, 0x100) * Pow(0x100, 5 - |g|)
  }

  function EncodeBlock(g: Bytes): (t: string)
    requires 1 <= |g| <= 5
    ensures |t| == 8
    ensures forall i :: 0 <= i < 8 ==> (t[i] != '=' <==> i < SymbolsFor(|g|))
    ensures forall i :: 0 <= i < 8 ==> t[i] != ' ' && Upper(t[i]) == t[i] && (t[i] as nat) < 0x80
  {
    var digits := ToBase(BlockNumber(g), 32, 8);
    seq(8, i requires 0 <= i < 8 => if i < SymbolsFor(|g|) then Symbol(digits[i]) else '=')
  }

  /** Whole blocks, the last one starting with two symbols at least. */
  function Encode(b: Bytes): (t: string)
    ensures |t| % 8 == 0
    ensures b != [] ==> |t| >= 8 && t[|t| - 7] != '='
  {
    if b == [] then ""
    else if |b| <= 5 then EncodeBlock(b)
    else EncodeBlock(b[..5]) + Encode(b[5..])
  }

  /** Index of the first '=' , or the length. */
  function PadStart(t: string): (d: nat)
    ensures d <= |t|
    ensures forall i :: 0 <= i < d ==> t[i] != '='
    ensures d < |t| ==> t[d] == '='
  {
    if t == "" || t[0] == '=' then 0 else 1 + PadStart(t[1..])
  }

  /** Digit values of a run of symbols, zero-filled to eight. */
  function BlockDigits(t: string): (s: seq<nat>)
    requires |t| <= 8 && forall c :: c in t ==> Value(c).Some?
    ensures |s| == 8
  {
    seq(|t|, i requires 0 <= i < |t| => assert t[i] in t; Value(t[i]).value) + seq(8 - |t|, _ => 0)
  }

  function DecodeBlock(t: string): Option<Bytes>
    requires |t| == 8
  {
    var d := PadStart(t);
    if (exists i :: d <= i < 8 && t[i] != '=') || d !in {2, 4, 5, 7, 8} then None
    else if exists c :: c in t[..d] && Value(c).None? then None
    else
      var bytes: Bytes := ToBase(FromBase(BlockDigits(t[..d]), 32), 0x100, 5);
      var n := d * 5 / 8;
      if exists i :: n <= i < 5 && bytes[i] != 0 then None  // non-zero trailing bits
      else Some(bytes[..n])
  }

  function Decode(t: string): Option<Bytes> {
    if t == "" then Some([])
    else if |t| < 8 then None
    else match (DecodeBlock(t[..8]), Decode(t[8..]))
      case (Some(b), Some(rest)) => Some(b + rest)
      case _ => None
  }

  lemma BlockGeometry(n: nat) returns (c: nat)
    requires 1 <= n <= 5
    ensures var d := SymbolsFor(n);
            && d in {2, 4, 5, 7, 8} && d * 5 / 8 == n
            && Pow(0x100, 5 - n) == c * Pow(32, 8 - d)
  {
    assert Pow(0x100, 1) == 8 * Pow(32, 1);
    assert Pow(0x100, 2) == 2 * Pow(32, 3);
    assert Pow(0x100, 3) == 16 * Pow(32, 4);
    assert Pow(0x100, 4) == 4 * Pow(32, 6);
    assert Pow(0x100, 0) == 1 * Pow(32, 0);
    c := if n == 1 then 4 else if n == 2 then 16 else if n == 3 then 2 else if n == 4 then 8 else 1;
  }

  lemma FortyBits(n: nat)
    requires n <= 5
    ensures Pow(0x100, n) * Pow(0x100, 5 - n) == Pow(32, 8)
  {
    assert Pow(32, 4) == 0x10_0000;
    assert Pow(0x100, 3) == 0x100_0000 && Pow(0x100, 2) == 0x1_0000 && Pow(0x100, 1) == 0x100;
  }

  lemma BlockNumberBound(g: Bytes)
    requires 1 <= |g| <= 5
    ensures BlockNumber(g) < Pow(32, 8)
  {
    ValueThenDigits(g, 0x100);
    var v, p, q := FromBase(g, 0x100), Pow(0x100, 5 - |g|), Pow(0x100, |g|);
    PowPositive(0x100, 5 - |g|);
    FortyBits(|g|);
    Scale(v, q, p);
  }

  lemma Scale(v: nat, q: nat, p: nat)
    requires v < q && p >= 1
    ensures v * p < q * p
  {
    MulLe(v + 1, q, p);
    assert (v + 1) * p == v * p + p;
  }

  lemma BlockBytes(g: Bytes)
    requires 1 <= |g| <= 5
    ensures ToBase(BlockNumber(g), 0x100, 5) == g + seq(5 - |g|, _ => 0)
  {
    ValueThenDigits(g, 0x100);
    TrailingZeros(FromBase(g, 0x100), 0x100, 5, 5 - |g|);
  }

  lemma EncodedDigits(g: Bytes)
    requires 1 <= |g| <= 5
    ensures var d := SymbolsFor(|g|);
            && 2 <= d <= 8
            && ToBase(BlockNumber(g), 32, 8)[d..] == seq(8 - d, _ => 0)
  {
    var n, d := |g|, SymbolsFor(|g|);
    var c := BlockGeometry(n);
    var v, p := FromBase(g, 0x100), Pow(32, 8 - d);
    assert v * (c * p) == (v * c) * p;
    TrailingZeros(v * c, 32, 8, 8 - d);
  }

  lemma BlockRoundTrip(g: Bytes)
    requires 1 <= |g| <= 5
    ensures DecodeBlock(EncodeBlock(g)) == Some(g)
  {
    var t, d := EncodeBlock(g), SymbolsFor(|g|);
    var number := BlockNumber(g);
    var _ := BlockGeometry(|g|);
    assert PadStart(t) == d by { if d < 8 { assert t[d] == '='; } }
    var digits := ToBase(number, 32, 8);
    assert BlockDigits(t[..d]) == digits by { EncodedDigits(g); assert digits == digits[..d] + digits[d..]; }
    BlockNumberBound(g);
    DigitsThenValue(number, 32, 8);
    BlockBytes(g);
    assert (g + seq(5 - |g|, _ => 0))[..|g|] == g;
  }

  lemma {:induction false} RoundTrip(b: Bytes)
    ensures Decode(Encode(b)) == Some(b)
  {
    if b == [] {
    } else if |b| <= 5 {
      BlockRoundTrip(b);
      var t := EncodeBlock(b);
      assert t[..8] == t && t[8..] == "" && b + [] == b;
    } else {
      BlockRoundTrip(b[..5]);
      RoundTrip(b[5..]);
      var t := Encode(b);
      assert t[..8] == EncodeBlock(b[..5]) && t[8..] == Encode(b[5..]);
      assert b == b[..5] + b[5..];
    }
  }

  /** The decoder is strict: a block it accepts is the encoding of its bytes. */
  lemma BlockIsCanonical(t: string)
    requires |t| == 8 && DecodeBlock(t).Some?
    ensures var g := DecodeBlock(t).value;
            1 <= |g| <= 5 && EncodeBlock(g) == t
  {
    var d, g := PadStart(t), DecodeBlock(t).value;
    var digits := BlockDigits(t[..d]);
    var number := FromBase(digits, 32);
    ValueThenDigits(digits, 32);
    CanonicalNumber(number, g);
    var u := EncodeBlock(g);
    forall i | 0 <= i < 8 ensures u[i] == t[i] {
      if i < d {
        assert t[i] in t[..d];
        SymbolOfValue(t[i]);
        assert ToBase(number, 32, 8)[i] == digits[i];
      }
    }
  }

  lemma SymbolOfValue(c: char)
    requires Value(c).Some?
    ensures Value(c).value < 32 && Symbol(Value(c).value) == c
  {}

  lemma CanonicalNumber(number: nat, g: Bytes)
    requires number < Pow(32, 8) && |g| <= 5
    requires ToBase(number, 0x100, 5) == g + seq(5 - |g|, _ => 0)
    ensures BlockNumber(g) == number
  {
    FortyBits(5);
    DigitsThenValue(number, 0x100, 5);
    FromBaseZeros(g, 0x100, 5 - |g|);
  }

  // The forgiving reader

  /** Every character replaced by a text. */
  function Each(f: char -> string, s: string): string {
    if s == "" then "" else f(s[0]) + Each(f, s[1..])
  }

  /** The upper case of a character, as far as it is ASCII: ten characters from
      elsewhere also have ASCII upper cases, some of them longer. A character with
      any other upper case stands for itself here; neither can be decoded. */
  function UpperText(c: char): string {
    var n := c as nat;
    if n < 0x80 then [Upper(c)]
    else if n == 0xDF then "SS"
    else if n == 0x131 then "I"
    else if n == 0x17F then "S"
    else if n == 0xFB00 then "FF"
    else if n == 0xFB01 then "FI"
    else if n == 0xFB02 then "FL"
    else if n == 0xFB03 then "FFI"
    else if n == 0xFB04 then "FFL"
    else if n == 0xFB05 || n == 0xFB06 then "ST"
    else [c]
  }

  function NormalChar(c: char): string {
    if c == ' ' then "" else UpperText(c)
  }

  /** Spaces removed, letters upper-cased. */
  function Normal(text: string): string {
    Each(NormalChar, text)
  }

  function Pads(k: nat): (p: string)
    ensures |p| == k
  {
    seq(k, _ => '=')
  }

  /** Characters missing to a multiple of eight. */
  function Missing(n: nat): (k: nat)
    ensures k < 8
  {
    (8 - n % 8) % 8
  }

  function Padded(clean: string): string {
    clean + Pads(Missing(|clean|))
  }

  lemma PadMore(t: string, k: nat)
    ensures t + Pads(k) + ['='] == t + Pads(k + 1)
  {}

  lemma MissingExactly(n: nat, k: nat)
    requires k <= Missing(n)
    ensures (n + k) % 8 == 0 <==> k == Missing(n)
  {}

  method FromBase32(text: string) returns (secret: Option<Bytes>)
    ensures secret == Decode(Padded(Normal(text)))
  {
    var clean := Normal(text);
    ghost var start, added := clean, 0;
    assert clean == start + Pads(0);
    MissingExactly(|start|, added);
    while |clean| % 8 != 0
      invariant 0 <= added <= Missing(|start|) && clean == start + Pads(added)
      invariant |clean| % 8 == 0 <==> added == Missing(|start|)
      decreases 8 - added
    {
      PadMore(start, added);
      clean, added := clean + ['='], added + 1;
      MissingExactly(|start|, added);
    }
    secret := Decode(clean);
  }

  /** What people do to a secret when they copy it. */
  datatype Edit = LowerAt(i: nat) | SpaceAt(i: nat) | DropPad

  function Apply(t: string, e: Edit): string {
    match e
    case LowerAt(i) => if i < |t| then t[i := LowerAscii(t[i])] else t
    case SpaceAt(i) => if i <= |t| then t[..i] + " " + t[i..] else t
    case DropPad => if t != "" && t[|t| - 1] == '=' then t[..|t| - 1] else t
  }

  function ApplyAll(t: string, edits: seq<Edit>): string {
    if edits == [] then t else Apply(ApplyAll(t, edits[..|edits| - 1]), edits[|edits| - 1])
  }

  lemma EachCons(f: char -> string, c: char, s: string)
    ensures Each(f, [c] + s) == f(c) + Each(f, s)
  {
    assert ([c] + s)[1..] == s;
  }

  lemma {:induction false} EachConcat(f: char -> string, a: string, b: string)
    ensures Each(f, a + b) == Each(f, a) + Each(f, b)
  {
    if a == "" {
      assert a + b == b;
    } else {
      EachConcat(f, a[1..], b);
      assert a + b == [a[0]] + (a[1..] + b);
      EachCons(f, a[0], a[1..] + b);
    }
  }

  lemma EachThrough(f: char -> string, x: string, c: char, y: string)
    ensures Each(f, x + [c] + y) == Each(f, x) + f(c) + Each(f, y)
  {
    assert x + [c] + y == x + ([c] + y);
    EachConcat(f, x, [c] + y);
    EachCons(f, c, y);
  }

  lemma {:induction false} NormalEncoded(b: Bytes)
    ensures Normal(Encode(b)) == Encode(b)
  {
    if b != [] {
      var t := EncodeBlock(if |b| <= 5 then b else b[..5]);
      NormalFixed(t);
      if |b| > 5 {
        NormalEncoded(b[5..]);
        EachConcat(NormalChar, t, Encode(b[5..]));
      }
    }
  }

  lemma {:induction false} NormalFixed(t: string)
    requires forall i :: 0 <= i < |t| ==> t[i] != ' ' && Upper(t[i]) == t[i] && (t[i] as nat) < 0x80
    ensures Normal(t) == t
  {
    if t != "" {
      NormalFixed(t[1..]);
    }
  }

  /** `t` still normalises to `e` but for k dropped pads. */
  ghost predicate ShortBy(t: string, e: string, k: nat) {
    Normal(t) + Pads(k) == e
  }

  lemma LowerKeepsNormal(t: string, i: nat)
    ensures Normal(Apply(t, LowerAt(i))) == Normal(t)
  {
    if i < |t| {
      var x, y := t[..i], t[i + 1..];
      assert t == x + [t[i]] + y && Apply(t, LowerAt(i)) == x + [LowerAscii(t[i])] + y;
      EachThrough(NormalChar, x, t[i], y);
      EachThrough(NormalChar, x, LowerAscii(t[i]), y);
      SameNormal(t[i]);
    }
  }

  lemma SameNormal(c: char)
    ensures NormalChar(LowerAscii(c)) == NormalChar(c)
  {}

  lemma SpaceKeepsNormal(t: string, i: nat)
    ensures Normal(Apply(t, SpaceAt(i))) == Normal(t)
  {
    if i <= |t| {
      var x, y := t[..i], t[i..];
      assert t == x + y && Apply(t, SpaceAt(i)) == x + [' '] + y;
      EachThrough(NormalChar, x, ' ', y);
      EachConcat(NormalChar, x, y);
    }
  }

  lemma DropShortens(t: string, k: nat)
    requires t != "" && t[|t| - 1] == '='
    ensures Normal(Apply(t, DropPad)) + Pads(k + 1) == Normal(t) + Pads(k)
  {
    var init := t[..|t| - 1];
    assert t == init + ['='] + "";
    EachThrough(NormalChar, init, '=', "");
    OnePad(Normal(init), k);
  }

  lemma OnePad(n: string, k: nat)
    ensures n + "=" + "" + Pads(k) == n + Pads(k + 1)
  {}

  lemma EditKeepsSecret(t: string, edit: Edit, e: string, k: nat) returns (k': nat)
    requires ShortBy(t, e, k)
    ensures ShortBy(Apply(t, edit), e, k')
  {
    k' := k;
    match edit
    case LowerAt(i) => LowerKeepsNormal(t, i);
    case SpaceAt(i) => SpaceKeepsNormal(t, i);
    case DropPad =>
      if t != "" && t[|t| - 1] == '=' {
        DropShortens(t, k);
        k' := k + 1;
      }
  }

  lemma {:induction false} EditsKeepSecret(e: string, edits: seq<Edit>) returns (k: nat)
    requires Normal(e) == e
    ensures ShortBy(ApplyAll(e, edits), e, k)
  {
    if edits == [] {
      k := 0;
    } else {
      k := EditsKeepSecret(e, edits[..|edits| - 1]);
      k := EditKeepsSecret(ApplyAll(e, edits[..|edits| - 1]), edits[|edits| - 1], e, k);
    }
  }

  /** Fewer than eight pads are ever missing, so padding restores the text. */
  lemma PaddingRestores(t: string, e: string, k: nat)
    requires ShortBy(t, e, k) && |e| % 8 == 0
    requires e == "" || (|e| >= 8 && e[|e| - 7] != '=')
    ensures Padded(Normal(t)) == e
  {
    PadsRestore(Normal(t), e, k);
  }

  lemma PadsRestore(n: string, e: string, k: nat)
    requires n + Pads(k) == e && |e| % 8 == 0
    requires e == "" || (|e| >= 8 && e[|e| - 7] != '=')
    ensures Padded(n) == e
  {
    assert |e| == |n| + k;
    assert forall i :: |e| - k <= i < |e| ==> e[i] == '=';
    assert k < 8;
    MissingExactly(|n|, k);
  }

  /** However a secret's Base32 text is lower-cased, spaced out and stripped of
      trailing pads, reading it gives the secret back. */
  lemma SecretSurvivesEdits(secret: Bytes, edits: seq<Edit>)
    ensures Decode(Padded(Normal(ApplyAll(Encode(secret), edits)))) == Some(secret)
  {
    NormalEncoded(secret);
    var k := EditsKeepSecret(Encode(secret), edits);
    PaddingRestores(ApplyAll(Encode(secret), edits), Encode(secret), k);
    RoundTrip(secret);
  }

  // Text that never decodes

  predicate Decodable(c: char) {
    c == '=' || Value(c).Some?
  }

  lemma BlockIsDecodable(t: string)
    requires |t| == 8 && DecodeBlock(t).Some?
    ensures forall c :: c in t ==> Decodable(c)
  {
    var d := PadStart(t);
    forall i | 0 <= i < 8 ensures Decodable(t[i]) {
      if i < d {
        assert t[i] == t[..d][i];
      }
    }
  }

  lemma {:induction false} OnlyDecodable(t: string)
    requires Decode(t).Some?
    ensures forall c :: c in t ==> Decodable(c)
  {
    if t != "" {
      var head, tail := t[..8], t[8..];
      BlockIsDecodable(head);
      OnlyDecodable(tail);
      assert forall c :: c in head + tail ==> c in head || c in tail;
      assert t == head + tail;
    }
  }

  /** A character whose upper case is not in the alphabet spoils the whole text,
      whatever stands around it; so it does not matter how it is upper-cased. */
  lemma ForeignNeverDecodes(x: string, c: char, y: string, foreign: char)
    requires foreign in NormalChar(c) && !Decodable(foreign)
    ensures Decode(Padded(Normal(x + [c] + y))) == None
  {
    var text := x + [c] + y;
    EachThrough(NormalChar, x, c, y);
    assert foreign in Normal(text);
    assert foreign in Padded(Normal(text));
    if Decode(Padded(Normal(text))).Some? {
      OnlyDecodable(Padded(Normal(text)));
    }
  }

  /** Upper-casing can bring a foreign letter into the alphabet. */
  lemma SharpSReadsAsSS()
    ensures Normal("\U{DF}\U{DF}\U{DF}\U{DF}") == "SSSSSSSS" && Decode(Padded("SSSSSSSS")).Some?
  {
    FourTimes(NormalChar, '\U{DF}');
    EightDecode("SSSSSSSS");
  }

  lemma FourTimes(f: char -> string, c: char)
    ensures Each(f, [c, c, c, c]) == f(c) + f(c) + f(c) + f(c)
  {
    assert Each(f, []) == "";
    EachCons(f, c, []);
    EachCons(f, c, [c]);
    EachCons(f, c, [c, c]);
    EachCons(f, c, [c, c, c]);
    assert [c] + [] == [c] && [c] + [c] == [c, c] && [c] + [c, c] == [c, c, c] && [c] + [c, c, c] == [c, c, c, c];
  }

  /** Eight symbols of the alphabet are a block without spare bits. */
  lemma EightDecode(t: string)
    requires |t| == 8 && forall i :: 0 <= i < 8 ==> Value(t[i]).Some?
    ensures Decode(Padded(t)).Some?
  {
    assert Padded(t) == t && t[..8] == t && t[8..] == "";
    assert PadStart(t) == 8;
    assert forall c :: c in t[..8] ==> Value(c).Some?;
    assert DecodeBlock(t).Some?;
  }

  // The alphabet and the bit order, by two vectors of section 10 of RFC 4648

  const ALPHABET := "ABCDEFGHIJKLMNOPQRSTUVWXYZ234567"

  lemma AlphabetExactly(v: nat)
    requires v < 32
    ensures Symbol(v) == ALPHABET[v]
  {
    if v < 26 {
      assert ALPHABET[v] as nat == 'A' as nat + v;
    } else {
      assert ALPHABET[v] as nat == '2' as nat + v - 26;
    }
  }

  /** The ten characters from elsewhere with an ASCII upper case. */
  lemma ForeignUpperCases()
    ensures UpperText('\U{DF}') == "SS" && UpperText('\U{131}') == "I" && UpperText('\U{17F}') == "S"
    ensures UpperText('\U{FB00}') == "FF" && UpperText('\U{FB01}') == "FI" && UpperText('\U{FB02}') == "FL"
    ensures UpperText('\U{FB03}') == "FFI" && UpperText('\U{FB04}') == "FFL"
    ensures UpperText('\U{FB05}') == "ST" && UpperText('\U{FB06}') == "ST"
  {}

  lemma VectorF()
    ensures Encode([0x66]) == "MY======"
  {
    var n := BlockNumber([0x66]);
    assert FromBase([0x66], 0x100) == 0x66 by { assert [0x66][..0] == []; }
    PowersOf256();
    assert Pow(0x100, 4) == 0x1_0000_0000;
    assert n == 0x66_0000_0000;
    EightDigits(n);
    var t := EncodeBlock([0x66]);
    assert t == "MY======";
  }

  lemma EightDigits(n: nat)
    requires n < 0x100_0000_0000
    ensures ToBase(n, 32, 8) == [n / 0x8_0000_0000, n / 0x4000_0000 % 32, n / 0x200_0000 % 32, n / 0x10_0000 % 32,
                                n / 0x8000 % 32, n / 0x400 % 32, n / 32 % 32, n % 32]
  {
    assert Pow(32, 0) == 1 && Pow(32, 1) == 32 && Pow(32, 2) == 0x400 && Pow(32, 3) == 0x8000;
    assert Pow(32, 4) == 0x10_0000 && Pow(32, 5) == 0x200_0000 && Pow(32, 6) == 0x4000_0000 && Pow(32, 7) == 0x8_0000_0000;
    var s := ToBase(n, 32, 8);
    assert s[0] == Digit(n, 32, 7) && s[1] == Digit(n, 32, 6) && s[2] == Digit(n, 32, 5) && s[3] == Digit(n, 32, 4);
    assert s[4] == Digit(n, 32, 3) && s[5] == Digit(n, 32, 2) && s[6] == Digit(n, 32, 1) && s[7] == Digit(n, 32, 0);
  }
}
