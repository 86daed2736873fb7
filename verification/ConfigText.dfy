/** Text handling of the configuration front end: splitting addresses, parsing
    ports, trimming, comparing without case. */
module ConfigText {
  import opened Basics

  // Splitting

  function Split(s: string, c: char): (parts: seq<string>)
    ensures |parts| >= 1
  {
    if s == "" then [""]
    else
      var rest := Split(s[1..], c);
      if s[0] == c then [""] + rest else [[s[0]] + rest[0]] + rest[1..]
  }

  function Join(parts: seq<string>, c: char): string
    requires |parts| >= 1
  {
    if |parts| == 1 then parts[0] else parts[0] + [c] + Join(parts[1..], c)
  }

  lemma {:induction false} JoinSplit(s: string, c: char)
    ensures Join(Split(s, c), c) == s
    ensures |Split(s, c)| >= 2 <==> c in s
  {
    if s != "" {
      JoinSplit(s[1..], c);
      var rest := Split(s[1..], c);
      assert s == [s[0]] + s[1..];
      if s[0] == c {
        JoinCons("", rest, c);
      } else {
        JoinLonger(s[0], rest, c);
      }
    }
  }

  lemma JoinCons(p: string, rest: seq<string>, c: char)
    requires |rest| >= 1
    ensures Join([p] + rest, c) == p + [c] + Join(rest, c)
  {
    assert ([p] + rest)[1..] == rest;
  }

  lemma JoinLonger(x: char, rest: seq<string>, c: char)
    requires |rest| >= 1
    ensures Join([[x] + rest[0]] + rest[1..], c) == [x] + Join(rest, c)
  {
    if |rest| > 1 {
      JoinCons([x] + rest[0], rest[1..], c);
      JoinCons(rest[0], rest[1..], c);
      assert rest == [rest[0]] + rest[1..];
    }
  }

  lemma {:induction false} JoinLast(parts: seq<string>, c: char)
    requires |parts| >= 2
    ensures Join(parts, c) == Join(parts[..|parts| - 1], c) + [c] + parts[|parts| - 1]
  {
    if |parts| > 2 {
      JoinLast(parts[1..], c);
      assert parts[1..][..|parts| - 2] == parts[..|parts| - 1][1..];
    } else {
      assert parts[1..] == [parts[1]];
    }
  }

  /** Text after the last `c`, the whole text without one: `rsplit(c)` first. */
  function AfterLast(s: string, c: char): string {
    if s == "" || s[|s| - 1] == c then ""
    else AfterLast(s[..|s| - 1], c) + [s[|s| - 1]]
  }

  /** It is the whole text, or what stands behind one last `c`. */
  lemma {:induction false} AfterLastTail(s: string, c: char) returns (head: string)
    ensures c !in AfterLast(s, c)
    ensures if c in s then s == head + [c] + AfterLast(s, c) else AfterLast(s, c) == s
  {
    head := "";
    if s != "" {
      var init, last := s[..|s| - 1], s[|s| - 1];
      assert s == init + [last];
      if last == c {
        head := init;
        assert init + [c] + "" == s;
      } else {
        head := AfterLastTail(init, c);
        Regroup(head, c, AfterLast(init, c), last);
      }
    }
  }

  lemma Regroup(head: string, c: char, tail: string, last: char)
    ensures (head + [c] + tail) + [last] == head + [c] + (tail + [last])
  {}

  lemma {:induction false} PartsLack(s: string, c: char)
    ensures forall p :: p in Split(s, c) ==> c !in p
  {
    if s != "" {
      PartsLack(s[1..], c);
    }
  }

  /** Two ways to cut at the last separator coincide. */
  lemma SameCut(h: string, t: string, h': string, t': string, c: char)
    requires h + [c] + t == h' + [c] + t' && c !in t && c !in t'
    ensures h == h' && t == t'
  {
    LastSeparator(h, t, c);
    LastSeparator(h', t', c);
    var s := h + [c] + t;
    assert s[..|h|] == h && s[|h| + 1..] == t && s[..|h'|] == h' && s[|h'| + 1..] == t';
  }

  lemma LastSeparator(h: string, t: string, c: char)
    requires c !in t
    ensures (h + [c] + t)[|h|] == c
    ensures forall j :: |h| < j < |h + [c] + t| ==> (h + [c] + t)[j] != c
  {
    assert forall j :: |h| < j < |h + [c] + t| ==> (h + [c] + t)[j] in t;
  }

  /** The host is everything before the last separator, the port text what
      follows it; together they are the address. */
  function Host(s: string, c: char): string {
    var parts := Split(s, c);
    if |parts| < 2 then "" else Join(parts[..|parts| - 1], c)
  }

  lemma HostPortRebuild(s: string, c: char)
    requires c in s
    ensures Host(s, c) + [c] + AfterLast(s, c) == s
    ensures AfterLast(s, c) == Split(s, c)[|Split(s, c)| - 1]
  {
    var h, t := SplitEnds(s, c);
    var head := AfterLastTail(s, c);
    SameCut(h, t, head, AfterLast(s, c), c);
  }

  lemma SplitEnds(s: string, c: char) returns (h: string, t: string)
    requires c in s
    ensures |Split(s, c)| >= 2
    ensures h == Host(s, c) && t == Split(s, c)[|Split(s, c)| - 1]
    ensures s == h + [c] + t && c !in t
  {
    var parts := Split(s, c);
    JoinSplit(s, c);
    JoinLast(parts, c);
    PartsLack(s, c);
    h, t := Join(parts[..|parts| - 1], c), parts[|parts| - 1];
    assert t in parts;
  }

  // Numbers

  predicate IsDigit(c: char) {
    '0' <= c <= '9'
  }

  predicate AllDigits(s: string) {
    forall i :: 0 <= i < |s| ==> IsDigit(s[i])
  }

  function DigitsValue(s: string): nat
    requires AllDigits(s)
  {
    if s == "" then 0
    else
      var last := s[|s| - 1];
      assert IsDigit(last);
      DigitsValue(s[..|s| - 1]) * 10 + (last as nat - '0' as nat)
  }

  function Unsigned(s: string): string {
    if s != "" && s[0] == '+' then s[1..] else s
  }

  /** `str::parse::<u16>`: an optional plus sign, then at least one digit. */
  function ParseU16(s: string): (r: Option<nat>)
    ensures r.Some? ==> r.value <= U16_MAX
  {
    var digits := Unsigned(s);
    if digits == "" || !AllDigits(digits) || DigitsValue(digits) > U16_MAX then None else Some(DigitsValue(digits))
  }

  // Trimming and comparing

  /** Unicode White_Space. */
  predicate IsWhitespace(c: char) {
    var n := c as nat;
    || 0x09 <= n <= 0x0D || n == 0x20 || n == 0x85 || n == 0xA0 || n == 0x1680
    || 0x2000 <= n <= 0x200A || n == 0x2028 || n == 0x2029 || n == 0x202F || n == 0x205F || n == 0x3000
  }

  function TrimStart(s: string): (t: string)
    ensures |t| <= |s| && t == s[|s| - |t|..]
    ensures t != "" ==> !IsWhitespace(t[0])
    ensures forall i :: 0 <= i < |s| - |t| ==> IsWhitespace(s[i])
  {
    if s != "" && IsWhitespace(s[0]) then TrimStart(s[1..]) else s
  }

  function TrimEnd(s: string): (t: string)
    ensures |t| <= |s| && t == s[..|t|]
    ensures t != "" ==> !IsWhitespace(t[|t| - 1])
    ensures s != "" && !IsWhitespace(s[0]) ==> t != ""
  {
    if s != "" && IsWhitespace(s[|s| - 1]) then TrimEnd(s[..|s| - 1]) else s
  }

  function Trim(s: string): string {
    TrimEnd(TrimStart(s))
  }

  lemma TrimKeeps(s: string)
    requires s != "" && !IsWhitespace(s[0]) && !IsWhitespace(s[|s| - 1])
    ensures Trim(s) == s
  {
    assert TrimStart(s) == s && TrimEnd(s) == s;
  }

  lemma TrimTwice(s: string)
    ensures Trim(Trim(s)) == Trim(s)
  {
    var t := Trim(s);
    assert t != "" ==> t[0] == TrimStart(s)[0];
    assert TrimStart(t) == t;
  }

  predicate EqIgnoreCase(a: string, b: string) {
    |a| == |b| && forall i :: 0 <= i < |a| ==> LowerAscii(a[i]) == LowerAscii(b[i])
  }
}
