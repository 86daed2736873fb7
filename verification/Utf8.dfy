/** Well-formed bytes and the strings they encode. */
module Utf8 {
  import opened Basics
  import opened Unicode
  import opened Wire

  lemma CharIsOneStep(c: char, rest: Bytes)
    ensures Utf8Step(CharBytes(c) + rest) == |CharBytes(c)|
    ensures (CharBytes(c) + rest)[|CharBytes(c)|..] == rest
  {}

  lemma {:induction false} StringsAreText(s: string)
    ensures ValidUtf8(StringBytes(s))
  {
    if s != "" {
      StringsAreText(s[1..]);
      CharIsOneStep(s[0], StringBytes(s[1..]));
    }
  }

  /** The code point of a sequence of one to four bytes: the low bits of the
      first, then six bits of each other. */
  function CodePoint(b: Bytes): int {
    if |b| == 1 then b[0] as int
    else if |b| == 2 then (b[0] as int - 0xC0) * 0x40 + (b[1] as int - 0x80)
    else if |b| == 3 then ((b[0] as int - 0xE0) * 0x40 + (b[1] as int - 0x80)) * 0x40 + (b[2] as int - 0x80)
    else if |b| == 4 then
      (((b[0] as int - 0xF0) * 0x40 + (b[1] as int - 0x80)) * 0x40 + (b[2] as int - 0x80)) * 0x40 + (b[3] as int - 0x80)
    else -1
  }

  lemma Digits64(n: nat)
    ensures n == n / 0x40 * 0x40 + n % 0x40
    ensures n / 0x1000 == n / 0x40 / 0x40 && n / 0x4_0000 == n / 0x1000 / 0x40
  {}

  lemma Join64(a: nat, b: nat)
    requires b < 0x40
    ensures (a * 0x40 + b) / 0x40 == a && (a * 0x40 + b) % 0x40 == b
  {}

  /** Encoding a character loses nothing. */
  lemma CharKept(c: char)
    ensures CodePoint(CharBytes(c)) == c as int
  {
    var n := c as nat;
    Digits64(n);
    Digits64(n / 0x40);
    Digits64(n / 0x1000);
  }

  lemma TwoBytesAreChar(x: byte, y: byte)
    requires 0xC2 <= x < 0xE0 && Continuation(y)
    ensures var n := CodePoint([x, y]); 0x80 <= n < 0x800 && CharBytes(n as char) == [x, y]
  {
    Join64(x - 0xC0, y - 0x80);
  }

  lemma ThreeBytesAreChar(x: byte, y: byte, z: byte)
    requires Utf8Step([x, y, z]) == 3
    ensures var n := CodePoint([x, y, z]);
      (0x800 <= n < 0xD800 || 0xE000 <= n < 0x1_0000) && CharBytes(n as char) == [x, y, z]
  {
    Join64(x - 0xE0, y - 0x80);
    Join64((x - 0xE0) * 0x40 + (y - 0x80), z - 0x80);
    Digits64(CodePoint([x, y, z]));
  }

  lemma FourBytesAreChar(w: byte, x: byte, y: byte, z: byte)
    requires Utf8Step([w, x, y, z]) == 4
    ensures var n := CodePoint([w, x, y, z]); 0x1_0000 <= n < 0x11_0000 && CharBytes(n as char) == [w, x, y, z]
  {
    var a := (w - 0xF0) * 0x40 + (x - 0x80);
    Join64(w - 0xF0, x - 0x80);
    Join64(a, y - 0x80);
    Join64(a * 0x40 + (y - 0x80), z - 0x80);
    Digits64(CodePoint([w, x, y, z]));
  }

  /** Every well-formed sequence encodes a character. */
  lemma StepIsChar(b: Bytes) returns (c: char)
    requires Utf8Step(b) > 0
    ensures CharBytes(c) == b[..Utf8Step(b)]
  {
    var s := b[..Utf8Step(b)];
    if |s| == 1 {
      assert s == [b[0]];
      c := b[0] as char;
    } else if |s| == 2 {
      assert s == [b[0], b[1]];
      TwoBytesAreChar(b[0], b[1]);
      c := CodePoint([b[0], b[1]]) as char;
    } else if |s| == 3 {
      assert s == [b[0], b[1], b[2]];
      ThreeBytesAreChar(b[0], b[1], b[2]);
      c := CodePoint([b[0], b[1], b[2]]) as char;
    } else {
      assert s == [b[0], b[1], b[2], b[3]];
      FourBytesAreChar(b[0], b[1], b[2], b[3]);
      c := CodePoint([b[0], b[1], b[2], b[3]]) as char;
    }
  }

  lemma {:induction false} TextIsString(b: Bytes) returns (s: string)
    requires ValidUtf8(b)
    ensures StringBytes(s) == b
  {
    if b == [] {
      s := "";
    } else {
      var k := Utf8Step(b);
      var head, tail := b[..k], b[k..];
      var c := StepIsChar(b);
      var rest := TextIsString(tail);
      s := [c] + rest;
      EncodedCons(c, rest);
      assert b == head + tail;
    }
  }

  lemma EncodedCons(c: char, rest: string)
    ensures StringBytes([c] + rest) == CharBytes(c) + StringBytes(rest)
  {
    assert ([c] + rest)[1..] == rest;
  }

  /** Bytes are text exactly if some string encodes to them. */
  lemma TextExactly(b: Bytes)
    ensures ValidUtf8(b) <==> exists s: string :: StringBytes(s) == b
  {
    if ValidUtf8(b) {
      var s := TextIsString(b);
    } else if s: string :| StringBytes(s) == b {
      StringsAreText(s);
    }
  }
}
