/** What the text functions of the configuration mean, stated over the
    characters of the text. */
module TextMeaning {
  import opened Basics
  import opened Digits
  import opened Unicode
  import opened ConfigText

  // Numbers

  /** A run of decimal digits. */
  ghost predicate Decimal(d: string) {
    d != "" && forall i :: 0 <= i < |d| ==> '0' <= d[i] <= '9'
  }

  function DigitsOf(s: string): (ds: seq<nat>)
    requires forall i :: 0 <= i < |s| ==> '0' <= s[i] <= '9'
    ensures |ds| == |s|
  {
    seq(|s|, i requires 0 <= i < |s| => s[i] as nat - '0' as nat)
  }

  ghost predicate NumeralOf(s: string, d: string, n: nat) {
    (s == d || s == "+" + d) && Decimal(d) && FromBase(DigitsOf(d), 10) == n
  }

  /** `s` is a decimal numeral for n, with or without a plus sign. */
  ghost predicate Numeral(s: string, n: nat) {
    exists d: string :: NumeralOf(s, d, n)
  }

  lemma {:induction false} ValueIsPositional(d: string)
    requires forall i :: 0 <= i < |d| ==> '0' <= d[i] <= '9'
    ensures DigitsValue(d) == FromBase(DigitsOf(d), 10)
  {
    if d != "" {
      var init := d[..|d| - 1];
      ValueIsPositional(init);
      assert DigitsOf(d)[..|d| - 1] == DigitsOf(init);
    }
  }

  lemma UnsignedOf(s: string, d: string, n: nat)
    requires NumeralOf(s, d, n)
    ensures Unsigned(s) == d && AllDigits(d)
  {
    assert IsDigit(d[0]);
    if s == "+" + d {
      assert s[0] == '+' && s[1..] == d;
    }
  }

  lemma UnsignedParts(s: string)
    ensures s == Unsigned(s) || s == "+" + Unsigned(s)
  {}

  lemma ParsedIsNumeral(s: string, n: nat)
    requires ParseU16(s) == Some(n)
    ensures n <= 0xFFFF && Numeral(s, n)
  {
    var d := Unsigned(s);
    UnsignedParts(s);
    assert forall i :: 0 <= i < |d| ==> IsDigit(d[i]);
    ValueIsPositional(d);
    assert NumeralOf(s, d, n);
  }

  lemma NumeralParses(s: string, d: string, n: nat)
    requires n <= 0xFFFF && NumeralOf(s, d, n)
    ensures ParseU16(s) == Some(n)
  {
    UnsignedOf(s, d, n);
    ValueIsPositional(d);
  }

  /** A port text stands for n exactly if it is a decimal numeral for it. */
  lemma PortExactly(s: string, n: nat)
    ensures ParseU16(s) == Some(n) <==> n <= 0xFFFF && Numeral(s, n)
  {
    if ParseU16(s) == Some(n) {
      ParsedIsNumeral(s, n);
    } else if n <= 0xFFFF && Numeral(s, n) {
      var d: string :| NumeralOf(s, d, n);
      NumeralParses(s, d, n);
    }
  }

  // Whitespace and trimming

  const WHITESPACE := "\t\n\U{B}\U{C}\r \U{85}\U{A0}\U{1680}\U{2000}\U{2001}\U{2002}\U{2003}\U{2004}\U{2005}\U{2006}\U{2007}\U{2008}\U{2009}\U{200A}\U{2028}\U{2029}\U{202F}\U{205F}\U{3000}"

  lemma WhitespaceExactly(c: char)
    ensures IsWhitespace(c) <==> c in WHITESPACE
  {
    var n := c as nat;
    if 0x09 <= n <= 0x0D { assert c == WHITESPACE[n - 0x09]; }
    if 0x2000 <= n <= 0x200A { assert c == WHITESPACE[9 + n - 0x2000]; }
  }

  ghost predicate White(s: string) {
    forall i :: 0 <= i < |s| ==> IsWhitespace(s[i])
  }

  ghost predicate TrimmedBy(s: string, a: string, t: string, b: string) {
    White(a) && White(b) && s == a + t + b
  }

  /** `t` is `s` without the whitespace around it. */
  ghost predicate TrimsTo(s: string, t: string) {
    && (t != "" ==> !IsWhitespace(t[0]) && !IsWhitespace(t[|t| - 1]))
    && exists a: string, b: string :: TrimmedBy(s, a, t, b)
  }

  lemma StartParts(s: string) returns (a: string)
    ensures White(a) && s == a + TrimStart(s)
  {
    a := s[..|s| - |TrimStart(s)|];
  }

  lemma EndParts(u: string) returns (b: string)
    ensures White(b) && u == TrimEnd(u) + b
  {
    TrimEndDrops(u);
    b := u[|TrimEnd(u)|..];
  }

  lemma TrimTrims(s: string)
    ensures TrimsTo(s, Trim(s))
  {
    var a := StartParts(s);
    var u := TrimStart(s);
    var b := EndParts(u);
    Nested(s, a, TrimEnd(u), b);
    EndKeepsHead(u);
  }

  lemma Nested(s: string, a: string, t: string, b: string)
    requires White(a) && White(b) && s == a + (t + b)
    ensures TrimmedBy(s, a, t, b)
  {}

  lemma EndKeepsHead(u: string)
    ensures TrimEnd(u) != "" ==> u != "" && TrimEnd(u)[0] == u[0]
  {}

  lemma {:induction false} TrimEndDrops(s: string)
    ensures forall i :: |TrimEnd(s)| <= i < |s| ==> IsWhitespace(s[i])
  {
    if s != "" && IsWhitespace(s[|s| - 1]) {
      TrimEndDrops(s[..|s| - 1]);
    }
  }

  lemma TrimsOnce(s: string, t: string, u: string)
    requires TrimsTo(s, t) && TrimsTo(s, u)
    ensures t == u
  {
    var a: string, b: string :| TrimmedBy(s, a, t, b);
    var x: string, y: string :| TrimmedBy(s, x, u, y);
    if t == "" {
      NoneInside(s, x, u, y);
    } else if u == "" {
      NoneInside(s, a, t, b);
    } else {
      StartsAlike(s, a, t, b, x, u, y);
      StartsAlike(s, x, u, y, a, t, b);
      assert t == s[|a|..|s| - |b|] && u == s[|x|..|s| - |y|];
    }
  }

  lemma HeadAt(x: string, u: string, y: string)
    ensures u != "" ==> (x + u + y)[|x|] == u[0]
  {}

  lemma NoneInside(s: string, x: string, u: string, y: string)
    requires s == x + u + y && White(s)
    requires u != "" ==> !IsWhitespace(u[0])
    ensures u == ""
  {
    HeadAt(x, u, y);
  }

  lemma Overlap(s: string, x: string, u: string, y: string, i: nat, j: nat)
    requires s == x + u + y && White(x) && White(y) && i < |s| && j < |s|
    ensures i < |x| ==> IsWhitespace(s[i])
    ensures j < |y| ==> IsWhitespace(s[|s| - 1 - j])
  {}

  lemma StartsAlike(s: string, a: string, t: string, b: string, x: string, u: string, y: string)
    requires s == a + t + b == x + u + y && White(x) && White(y)
    requires t != "" && !IsWhitespace(t[0]) && !IsWhitespace(t[|t| - 1])
    ensures |x| <= |a| && |y| <= |b|
  {
    assert s[|a|] == t[0] && s[|s| - 1 - |b|] == t[|t| - 1];
    Overlap(s, x, u, y, |a|, |b|);
  }

  /** Trimming removes exactly the whitespace at both ends. */
  lemma TrimExactly(s: string, t: string)
    ensures Trim(s) == t <==> TrimsTo(s, t)
  {
    TrimTrims(s);
    if TrimsTo(s, t) {
      TrimsOnce(s, Trim(s), t);
    }
  }

  lemma TrimmedOnly(s: string)
    ensures TrimsTo(s, Trim(s)) && forall t: string :: TrimsTo(s, t) ==> t == Trim(s)
  {
    TrimTrims(s);
    forall t: string | TrimsTo(s, t) ensures t == Trim(s) {
      TrimsOnce(s, t, Trim(s));
    }
  }

  // Words in any case

  /** `s` is the word given in lower and in upper case, in any mixture. */
  ghost predicate InAnyCase(s: string, lower: string, upper: string) {
    |s| == |lower| == |upper| && forall i :: 0 <= i < |s| ==> s[i] == lower[i] || s[i] == upper[i]
  }

  lemma CaseOf(c: char, l: char)
    requires 'a' <= l <= 'z'
    ensures LowerAscii(c) == LowerAscii(l) <==> c == l || c == l - 'a' + 'A'
  {}

  lemma NullExactly(s: string)
    ensures EqIgnoreCase(s, "null") <==> InAnyCase(s, "null", "NULL")
  {
    forall i | 0 <= i < Min(|s|, 4)
      ensures LowerAscii(s[i]) == LowerAscii("null"[i]) <==> s[i] == "null"[i] || s[i] == "NULL"[i]
    {
      CaseOf(s[i], "null"[i]);
    }
  }

  lemma SourceIpExactly(s: string)
    ensures EqIgnoreCase(s, "source_ip") <==> InAnyCase(s, "source_ip", "SOURCE_IP")
  {
    forall i | 0 <= i < Min(|s|, 9)
      ensures LowerAscii(s[i]) == LowerAscii("source_ip"[i]) <==> s[i] == "source_ip"[i] || s[i] == "SOURCE_IP"[i]
    {
      if i != 6 {
        CaseOf(s[i], "source_ip"[i]);
      }
    }
  }

  // Addresses

  ghost predicate Around(address: string, host: Option<string>, t: string) {
    match host
    case Some(h) => address == h + ":" + t
    case None => address == t
  }

  /** `address` is a port text alone, or host and port text around a colon. */
  ghost predicate HostAndPort(address: string, host: Option<string>, port: nat) {
    port <= 0xFFFF && exists t: string :: Around(address, host, t) && Numeral(t, port)
  }

  lemma NumeralHasNoColon(t: string, n: nat)
    requires Numeral(t, n)
    ensures ':' !in t
  {
    var d: string :| NumeralOf(t, d, n);
    assert forall c :: c in t ==> c in d || c == '+';
  }

  lemma AroundColon(address: string, host: Option<string>, t: string)
    ensures Around(address, host, t) && host.Some? ==> ':' in address
  {
    if Around(address, host, t) && host.Some? {
      assert address[|host.value|] == ':';
    }
  }

  lemma OneCut(address: string, h: string, t: string)
    requires ':' in address && ':' !in t && address == h + ":" + t
    ensures h == Host(address, ':') && t == AfterLast(address, ':')
  {
    HostPortRebuild(address, ':');
    var head := AfterLastTail(address, ':');
    SameCut(h, t, Host(address, ':'), AfterLast(address, ':'), ':');
  }

  /** Host and port text are what stands around the last colon. */
  lemma CutExactly(address: string, host: Option<string>, t: string)
    requires ':' !in t
    ensures Around(address, host, t) <==>
      && t == AfterLast(address, ':')
      && host == if ':' in address then Some(Host(address, ':')) else None
  {
    AroundColon(address, host, t);
    var head := AfterLastTail(address, ':');
    if ':' in address {
      HostPortRebuild(address, ':');
      if host.Some? && Around(address, host, t) {
        OneCut(address, host.value, t);
      }
    }
  }
}
