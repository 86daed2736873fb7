/** The UTF-8 encoding of characters. */
module Unicode {
  import opened Basics

  function CharBytes(c: char): Bytes {
    var n := c as nat;
    if n < 0x80 then [n]
    else if n < 0x800 then [0xC0 + n / 0x40, 0x80 + n % 0x40]
    else if n < 0x1_0000 then [0xE0 + n / 0x1000, 0x80 + n / 0x40 % 0x40, 0x80 + n % 0x40]
    else [0xF0 + n / 0x4_0000, 0x80 + n / 0x1000 % 0x40, 0x80 + n / 0x40 % 0x40, 0x80 + n % 0x40]
  }

  function StringBytes(s: string): Bytes {
    if s == "" then [] else CharBytes(s[0]) + StringBytes(s[1..])
  }

  /** Bytes a character takes. */
  function Width(c: char): (w: nat)
    ensures 1 <= w <= 4 && w == |CharBytes(c)|
  {
    var n := c as nat;
    if n < 0x80 then 1 else if n < 0x800 then 2 else if n < 0x1_0000 then 3 else 4
  }

  function ByteLength(s: string): (n: nat)
    ensures n == |StringBytes(s)|
  {
    if s == "" then 0 else Width(s[0]) + ByteLength(s[1..])
  }

  /** How many characters the first n bytes are, if byte n is a character boundary. */
  function CharsIn(s: string, n: nat): (k: Option<nat>)
    ensures k.Some? ==> k.value <= |s| && k.value <= n
  {
    if n == 0 then Some(0)
    else if s == "" || Width(s[0]) > n then None
    else match CharsIn(s[1..], n - Width(s[0]))
      case Some(k) => Some(1 + k)
      case None => None
  }

  /** Byte n is a character boundary exactly when some prefix takes n bytes. */
  lemma {:induction false} BoundaryExactly(s: string, n: nat, k: nat)
    requires k <= |s|
    ensures CharsIn(s, n) == Some(k) <==> ByteLength(s[..k]) == n
  {
    if k > 0 {
      assert s[..k][1..] == s[1..][..k - 1];
      if n >= Width(s[0]) {
        BoundaryExactly(s[1..], n - Width(s[0]), k - 1);
      }
    }
  }

  /** The byte offsets between characters, both ends included. */
  function Boundaries(s: string): set<nat> {
    if s == "" then {0} else {0} + (set b | b in Boundaries(s[1..]) :: b + Width(s[0]))
  }

  lemma {:induction false} BoundariesExactly(s: string, n: nat)
    ensures n in Boundaries(s) <==> CharsIn(s, n).Some?
  {
    if n > 0 && s != "" && n >= Width(s[0]) {
      BoundariesExactly(s[1..], n - Width(s[0]));
    }
  }

  /** They are the lengths of the encoded prefixes. */
  lemma BoundariesArePrefixLengths(s: string, n: nat)
    ensures n in Boundaries(s) <==> exists k :: 0 <= k <= |s| && ByteLength(s[..k]) == n
  {
    BoundariesExactly(s, n);
    forall k | 0 <= k <= |s| ensures CharsIn(s, n) == Some(k) <==> ByteLength(s[..k]) == n {
      BoundaryExactly(s, n, k);
    }
  }
}
