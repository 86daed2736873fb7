/** The line-by-line rewriter that quotes `source_ip = null` before the text is
    parsed. Its byte slicing panics inside a multi-byte character, which is
    modelled as the absence of a result. */
module NullRewriter {
  import opened Basics
  import opened ConfigText
  import opened Unicode
  import opened TextMeaning

  // Lines

  predicate EndsLine(s: string) {
    s != "" && s[|s| - 1] == '\n'
  }

  /** A non-empty piece with a line feed at its end or nowhere. */
  predicate IsLine(s: string) {
    s != "" && forall i :: 0 <= i < |s| - 1 ==> s[i] != '\n'
  }

  /** Only the last line may lack its line feed. */
  ghost predicate AreLines(ls: seq<string>) {
    && (forall i :: 0 <= i < |ls| ==> IsLine(ls[i]))
    && (forall i :: 0 <= i < |ls| - 1 ==> EndsLine(ls[i]))
  }

  function FirstIndex(s: string, c: char): (k: nat)
    ensures k <= |s|
    ensures forall i :: 0 <= i < k ==> s[i] != c
    ensures k < |s| ==> s[k] == c
  {
    if s == "" || s[0] == c then 0 else 1 + FirstIndex(s[1..], c)
  }

  function FirstLine(s: string): (l: string)
    requires s != ""
    ensures IsLine(l) && |l| <= |s| && l == s[..|l|]
    ensures |l| < |s| ==> EndsLine(l)
  {
    s[..Min(FirstIndex(s, '\n') + 1, |s|)]
  }

  /** `split_inclusive('\n')`. */
  function Lines(s: string): (ls: seq<string>)
    ensures AreLines(ls)
    ensures s == "" <==> ls == []
    ensures ls != [] ==> (EndsLine(s) <==> EndsLine(ls[|ls| - 1]))
  {
    if s == "" then []
    else
      var l := FirstLine(s);
      [l] + Lines(s[|l|..])
  }

  function Concat(ls: seq<string>): string {
    if ls == [] then "" else ls[0] + Concat(ls[1..])
  }

  lemma {:induction false} LinesOfConcat(ls: seq<string>)
    requires AreLines(ls)
    ensures Lines(Concat(ls)) == ls
  {
    if ls != [] {
      TailFollows(ls);
      var l, tail, rest := ls[0], ls[1..], Concat(ls[1..]);
      LinesOfConcat(tail);
      LinesCons(l, rest);
      assert Lines(l + rest) == [l] + tail;
      assert ls == [l] + tail;
    }
  }

  lemma TailFollows(ls: seq<string>)
    requires AreLines(ls) && ls != []
    ensures IsLine(ls[0]) && AreLines(ls[1..])
    ensures Concat(ls[1..]) != "" ==> EndsLine(ls[0])
  {
    assert Concat(ls[1..]) != "" ==> |ls| > 1;
  }

  lemma LinesCons(l: string, rest: string)
    requires IsLine(l) && (rest != "" ==> EndsLine(l))
    ensures Lines(l + rest) == [l] + Lines(rest)
  {
    FirstLineOf(l, rest);
    assert (l + rest)[|l|..] == rest;
  }

  lemma FirstLineOf(l: string, rest: string)
    requires IsLine(l) && (rest != "" ==> EndsLine(l))
    ensures FirstLine(l + rest) == l
  {
    var s := l + rest;
    assert forall i :: 0 <= i < |l| ==> s[i] == l[i];
    assert EndsLine(l) ==> FirstIndex(s, '\n') == |l| - 1;
  }

  // One line

  predicate IsSourceIpKey(key: string) {
    EqIgnoreCase(Trim(key), "source_ip")
  }

  /** What may follow the word `null`. */
  predicate EndsValue(suffix: string) {
    suffix == "" || IsWhitespace(suffix[0]) || suffix[0] == '#'
  }

  /** What becomes of a value: the slice panics, it stays, or its first word is
      quoted and `suffix` follows. */
  datatype Cut = Panic | Keep | Quote(suffix: string)

  function CutValue(trimmed: string): Cut {
    if ByteLength(trimmed) < 4 then Keep
    else match CharsIn(trimmed, 4)
      case None => Panic
      case Some(k) =>
        if EqIgnoreCase(trimmed[..k], "null") && EndsValue(trimmed[k..]) then Quote(trimmed[k..]) else Keep
  }

  /** The text after the equals sign; None where the slice panics. */
  function RewriteValue(rest: string): Option<string> {
    var trimmed := TrimStart(rest);
    match CutValue(trimmed)
    case Panic => None
    case Keep => Some(rest)
    case Quote(suffix) => Some(rest[..|rest| - |trimmed|] + "\"null\"" + suffix)
  }

  /** A line without its line feed; `isKey` recognises the key. */
  function RewriteBody(isKey: string -> bool, body: string): Option<string> {
    var eq := FirstIndex(body, '=');
    if eq == |body| || !isKey(body[..eq]) then Some(body)
    else match RewriteValue(body[eq + 1..])
      case None => None
      case Some(value) => Some(body[..eq + 1] + value)
  }

  function Body(l: string): string {
    if EndsLine(l) then l[..|l| - 1] else l
  }

  function RewriteLine(isKey: string -> bool, l: string): Option<string> {
    match RewriteBody(isKey, Body(l))
    case None => None
    case Some(b) => Some(b + (if EndsLine(l) then "\n" else ""))
  }

  function Rewriter(isKey: string -> bool): string -> Option<string> {
    (l: string) => RewriteLine(isKey, l)
  }

  function RewriteLines(rewrite: string -> Option<string>, ls: seq<string>): Option<seq<string>> {
    if ls == [] then Some([])
    else match (RewriteLines(rewrite, ls[..|ls| - 1]), rewrite(ls[|ls| - 1]))
      case (Some(done), Some(l)) => Some(done + [l])
      case _ => None
  }

  lemma {:induction false} ConcatSnoc(ls: seq<string>, l: string)
    ensures Concat(ls + [l]) == Concat(ls) + l
  {
    if ls == [] {
      assert [l][1..] == [];
      assert [] + [l] == [l];
    } else {
      ConcatSnoc(ls[1..], l);
      assert (ls + [l])[1..] == ls[1..] + [l];
    }
  }

  lemma RewriteSnoc(rewrite: string -> Option<string>, ls: seq<string>, i: nat)
    requires i < |ls|
    ensures RewriteLines(rewrite, ls[..i + 1]) ==
      match (RewriteLines(rewrite, ls[..i]), rewrite(ls[i]))
      case (Some(done), Some(l)) => Some(done + [l])
      case _ => None
  {
    assert ls[..i + 1][..i] == ls[..i];
  }

  lemma {:induction false} PanicSpreads(rewrite: string -> Option<string>, ls: seq<string>, n: nat)
    requires n <= |ls| && RewriteLines(rewrite, ls[..n]) == None
    ensures RewriteLines(rewrite, ls) == None
    decreases |ls| - n
  {
    if n < |ls| {
      RewriteSnoc(rewrite, ls, n);
      PanicSpreads(rewrite, ls, n + 1);
    } else {
      assert ls[..n] == ls;
    }
  }

  // What the rewriter does to a line

  /** `body` assigns a bare null to the key. */
  predicate IsNullAssignment(
    isKey: string -> bool, body: string, key: string, space: string, word: string, suffix: string)
  {
    && body == key + "=" + space + word + suffix
    && '=' !in key && isKey(key)
    && (forall i :: 0 <= i < |space| ==> IsWhitespace(space[i]))
    && EqIgnoreCase(word, "null") && EndsValue(suffix)
  }

  lemma PlainChars(s: string, k: nat)
    requires k <= |s| && forall i :: 0 <= i < k ==> s[i] as nat < 0x80
    ensures CharsIn(s, k) == Some(k) && ByteLength(s) >= k
    decreases k
  {
    if k > 0 {
      PlainChars(s[1..], k - 1);
    }
  }

  lemma TrimStartSkips(space: string, rest: string)
    requires forall i :: 0 <= i < |space| ==> IsWhitespace(space[i])
    requires rest != "" && !IsWhitespace(rest[0])
    ensures TrimStart(space + rest) == rest
  {
    var s := space + rest;
    var t := TrimStart(s);
    assert s[|space|] == rest[0];
    assert forall i :: 0 <= i < |space| ==> IsWhitespace(s[i]);
    assert t != "" ==> !IsWhitespace(s[|s| - |t|]);
    assert |t| == |rest|;
  }

  lemma NullWordIsPlain(word: string)
    requires EqIgnoreCase(word, "null")
    ensures |word| == 4 && !IsWhitespace(word[0]) && forall i :: 0 <= i < 4 ==> (word[i] as nat) < 0x80
  {
    assert forall i :: 0 <= i < 4 ==> LowerAscii(word[i]) == LowerAscii("null"[i]);
  }

  lemma CutAtFirst(key: string, c: char, rest: string)
    requires c !in key
    ensures FirstIndex(key + [c] + rest, c) == |key|
  {
    var s := key + [c] + rest;
    assert s[|key|] == c;
    assert forall i :: 0 <= i < |key| ==> s[i] in key;
  }

  lemma NullValueQuoted(space: string, word: string, suffix: string)
    requires forall i :: 0 <= i < |space| ==> IsWhitespace(space[i])
    requires EqIgnoreCase(word, "null") && EndsValue(suffix)
    ensures RewriteValue(space + word + suffix) == Some(space + "\"null\"" + suffix)
  {
    assert space + word + suffix == space + (word + suffix);
    NullWordIsPlain(word);
    TrimStartSkips(space, word + suffix);
    NullIsCut(word, suffix);
    QuotedInPlace(space, word + suffix, suffix);
  }

  lemma NullIsCut(word: string, suffix: string)
    requires EqIgnoreCase(word, "null") && EndsValue(suffix)
    ensures CutValue(word + suffix) == Quote(suffix)
  {
    var trimmed := word + suffix;
    NullWordIsPlain(word);
    PlainChars(trimmed, 4);
    assert trimmed[..4] == word && trimmed[4..] == suffix;
  }

  lemma QuotedInPlace(space: string, trimmed: string, suffix: string)
    requires TrimStart(space + trimmed) == trimmed && CutValue(trimmed) == Quote(suffix)
    ensures RewriteValue(space + trimmed) == Some(space + "\"null\"" + suffix)
  {
    assert (space + trimmed)[..|space|] == space;
  }

  lemma BodyParts(key: string, rest: string)
    requires '=' !in key
    ensures var body := key + "=" + rest;
      && FirstIndex(body, '=') == |key| < |body|
      && body[..|key|] == key && body[|key| + 1..] == rest && body[..|key| + 1] == key + "="
  {
    CutAtFirst(key, '=', rest);
    assert key + "=" + rest == key + ['='] + rest;
  }

  /** Every bare null assignment is quoted in place. */
  lemma AssignmentQuoted(
    isKey: string -> bool, body: string, key: string, space: string, word: string, suffix: string)
    requires IsNullAssignment(isKey, body, key, space, word, suffix)
    ensures RewriteBody(isKey, body) == Some(key + "=" + (space + "\"null\"" + suffix))
  {
    var rest := space + word + suffix;
    assert body == key + "=" + rest;
    BodyParts(key, rest);
    NullValueQuoted(space, word, suffix);
  }

  lemma QuoteMeansNull(trimmed: string) returns (word: string)
    requires CutValue(trimmed).Quote?
    ensures trimmed == word + CutValue(trimmed).suffix
    ensures EqIgnoreCase(word, "null") && EndsValue(CutValue(trimmed).suffix)
  {
    word := trimmed[..CharsIn(trimmed, 4).value];
  }

  lemma TrimSplits(rest: string) returns (space: string)
    ensures rest == space + TrimStart(rest)
    ensures forall i :: 0 <= i < |space| ==> IsWhitespace(space[i])
  {
    space := rest[..|rest| - |TrimStart(rest)|];
  }

  lemma ValueUntouched(rest: string) returns (space: string, word: string, suffix: string)
    requires RewriteValue(rest).Some? && RewriteValue(rest).value != rest
    ensures rest == space + word + suffix
    ensures forall i :: 0 <= i < |space| ==> IsWhitespace(space[i])
    ensures EqIgnoreCase(word, "null") && EndsValue(suffix)
  {
    var trimmed;
    space, trimmed := ChangedParts(rest);
    word := QuoteMeansNull(trimmed);
    suffix := CutValue(trimmed).suffix;
    assert space + (word + suffix) == space + word + suffix;
  }

  lemma ChangedParts(rest: string) returns (space: string, trimmed: string)
    requires RewriteValue(rest).Some? && RewriteValue(rest).value != rest
    ensures rest == space + trimmed && CutValue(trimmed).Quote?
    ensures forall i :: 0 <= i < |space| ==> IsWhitespace(space[i])
  {
    ChangedIsQuoted(rest);
    space := TrimSplits(rest);
    trimmed := TrimStart(rest);
  }

  lemma ChangedIsQuoted(rest: string)
    requires RewriteValue(rest).Some? && RewriteValue(rest).value != rest
    ensures CutValue(TrimStart(rest)).Quote?
  {}

  /** Anything else that does not panic is left as it is. */
  lemma OthersUntouched(isKey: string -> bool, body: string)
    returns (key: string, space: string, word: string, suffix: string)
    requires RewriteBody(isKey, body).Some? && RewriteBody(isKey, body).value != body
    ensures IsNullAssignment(isKey, body, key, space, word, suffix)
  {
    var eq := FirstIndex(body, '=');
    key := body[..eq];
    var rest := body[eq + 1..];
    CutAround(body, eq);
    assert RewriteValue(rest).Some? && RewriteValue(rest).value != rest;
    space, word, suffix := ValueUntouched(rest);
    Regroup(key, space, word, suffix);
  }

  lemma CutAround(body: string, eq: nat)
    requires eq < |body| && body[eq] == '='
    ensures body[..eq + 1] + body[eq + 1..] == body
    ensures body == body[..eq] + "=" + body[eq + 1..]
  {}

  lemma Regroup(key: string, space: string, word: string, suffix: string)
    ensures key + "=" + (space + word + suffix) == key + "=" + space + word + suffix
  {}

  /** A line changes exactly when it is a bare null assignment. */
  lemma RewritesExactly(isKey: string -> bool, body: string)
    requires RewriteBody(isKey, body).Some?
    ensures RewriteBody(isKey, body).value != body
       <==> exists key, space, word, suffix :: IsNullAssignment(isKey, body, key, space, word, suffix)
  {
    if RewriteBody(isKey, body).value != body {
      var key, space, word, suffix := OthersUntouched(isKey, body);
    } else if key, space, word, suffix :| IsNullAssignment(isKey, body, key, space, word, suffix) {
      AssignmentQuoted(isKey, body, key, space, word, suffix);
      Longer(key, space, word, suffix);
    }
  }

  lemma Longer(key: string, space: string, word: string, suffix: string)
    requires EqIgnoreCase(word, "null")
    ensures key + "=" + (space + "\"null\"" + suffix) != key + "=" + space + word + suffix
  {
    assert |key + "=" + (space + "\"null\"" + suffix)| != |key + "=" + space + word + suffix|;
  }

  /** A value of four bytes or more with no character boundary at its fourth. */
  ghost predicate Straddled(value: string) {
    ByteLength(value) >= 4 && 4 !in Boundaries(value)
  }

  /** That is, no run of leading characters takes exactly four bytes. */
  lemma StraddledExactly(value: string)
    ensures Straddled(value) <==>
      ByteLength(value) >= 4 && forall k :: 0 <= k <= |value| ==> ByteLength(value[..k]) != 4
  {
    BoundariesArePrefixLengths(value, 4);
  }

  /** What follows the first equals sign; nothing without one. */
  function Assigned(body: string): string {
    var eq := FirstIndex(body, '=');
    if eq < |body| then body[eq + 1..] else ""
  }

  predicate AssignsKey(isKey: string -> bool, body: string) {
    var eq := FirstIndex(body, '=');
    eq < |body| && isKey(body[..eq])
  }

  /** When the slice panics: behind a key that matches, in a straddled value. */
  lemma PanicsExactly(isKey: string -> bool, body: string)
    ensures RewriteBody(isKey, body) == None <==> AssignsKey(isKey, body) && Straddled(TrimStart(Assigned(body)))
  {
    BodyPanics(isKey, body);
    ValuePanics(Assigned(body));
  }

  lemma ValuePanics(rest: string)
    ensures RewriteValue(rest) == None <==> Straddled(TrimStart(rest))
  {
    CutPanicsExactly(TrimStart(rest));
  }

  /** Two characters of three bytes each behind the key. */
  lemma PanicExample()
    ensures RewriteBody(IsSourceIpKey, "source_ip" + "=" + "\U{65E5}\U{672C}") == None
  {
    SourceIpIsKey();
    PanicsBehindKey(IsSourceIpKey);
  }

  lemma PanicsBehindKey(isKey: string -> bool)
    requires isKey("source_ip")
    ensures RewriteBody(isKey, "source_ip" + "=" + "\U{65E5}\U{672C}") == None
  {
    var value := "\U{65E5}\U{672C}";
    BodyParts("source_ip", value);
    ThreeBytesEach(value);
    TrimStartSkips("", value);
    assert "" + value == value;
    PanicsExactly(isKey, "source_ip" + "=" + value);
  }

  lemma SourceIpIsKey()
    ensures IsSourceIpKey("source_ip")
  {
    TrimKeeps("source_ip");
  }

  lemma ThreeBytesEach(value: string)
    requires |value| == 2 && forall i :: 0 <= i < 2 ==> Width(value[i]) == 3
    ensures Straddled(value)
  {
    var tail := value[1..];
    assert tail[1..] == "";
    assert ByteLength(tail) == 3 && Boundaries(tail) == {0, 3} by {
      assert ByteLength("") == 0 && Boundaries("") == {0};
    }
  }

  lemma BodyPanics(isKey: string -> bool, body: string)
    ensures RewriteBody(isKey, body) == None <==> AssignsKey(isKey, body) && RewriteValue(Assigned(body)) == None
  {}

  lemma CutPanicsExactly(value: string)
    ensures CutValue(value) == Panic <==> Straddled(value)
  {
    BoundariesExactly(value, 4);
  }

  lemma QuotedValueIsFixed(space: string, suffix: string)
    requires forall i :: 0 <= i < |space| ==> IsWhitespace(space[i])
    ensures var rest := space + "\"null\"" + suffix;
      RewriteValue(rest) == Some(rest)
  {
    var quoted := "\"null\"";
    assert space + quoted + suffix == space + (quoted + suffix);
    assert quoted[0] == '\"';
    assert LowerAscii('\"') != LowerAscii("null"[0]);
    ValueKept(space, quoted, suffix);
  }

  /** A value starting with a word that cannot be null is kept. */
  lemma ValueKept(space: string, word: string, suffix: string)
    requires forall i :: 0 <= i < |space| ==> IsWhitespace(space[i])
    requires |word| >= 4 && !IsWhitespace(word[0]) && LowerAscii(word[0]) != LowerAscii("null"[0])
    requires forall i :: 0 <= i < 4 ==> word[i] as nat < 0x80
    ensures RewriteValue(space + (word + suffix)) == Some(space + (word + suffix))
  {
    var trimmed := word + suffix;
    TrimStartSkips(space, trimmed);
    PlainChars(trimmed, 4);
    OtherWordKept(trimmed);
    assert (space + trimmed)[|space|..] == trimmed;
  }

  lemma OtherWordKept(trimmed: string)
    requires CharsIn(trimmed, 4) == Some(4) && LowerAscii(trimmed[0]) != LowerAscii("null"[0])
    ensures CutValue(trimmed) == Keep
  {
    assert trimmed[..4][0] == trimmed[0];
  }

  lemma RewrittenIsFixed(isKey: string -> bool, body: string)
    requires RewriteBody(isKey, body).Some?
    ensures var b := RewriteBody(isKey, body).value;
      && RewriteBody(isKey, b) == Some(b)
      && ('\n' !in body ==> '\n' !in b)
      && (body == "" <==> b == "")
  {
    if RewriteBody(isKey, body).value != body {
      var key, space, word, suffix := OthersUntouched(isKey, body);
      AssignmentQuoted(isKey, body, key, space, word, suffix);
      var rest := space + "\"null\"" + suffix;
      BodyParts(key, rest);
      QuotedValueIsFixed(space, suffix);
      if '\n' !in body {
        NoLineFeed(key, space, word, suffix);
      }
    }
  }

  lemma NoLineFeed(key: string, space: string, word: string, suffix: string)
    requires '\n' !in key + "=" + space + word + suffix
    ensures '\n' !in key + "=" + (space + "\"null\"" + suffix)
  {
    var body := key + "=" + space + word + suffix;
    assert forall c :: c in key || c in space || c in suffix ==> c in body;
  }

  lemma LineKept(isKey: string -> bool, l: string)
    requires IsLine(l) && RewriteLine(isKey, l).Some?
    ensures var m := RewriteLine(isKey, l).value;
      && IsLine(m) && (EndsLine(m) <==> EndsLine(l))
      && RewriteLine(isKey, m) == Some(m)
  {
    assert '\n' !in Body(l);
    RewrittenIsFixed(isKey, Body(l));
    var b, m := RewriteBody(isKey, Body(l)).value, RewriteLine(isKey, l).value;
    assert EndsLine(l) ==> m == b + "\n";
    assert Body(m) == b;
  }

  // What it does to the whole text

  /** A rewriting that keeps lines lines and its own output fixed. */
  ghost predicate KeepsLines(rewrite: string -> Option<string>) {
    forall l :: IsLine(l) && rewrite(l).Some? ==>
      && IsLine(rewrite(l).value) && (EndsLine(rewrite(l).value) <==> EndsLine(l))
      && rewrite(rewrite(l).value) == rewrite(l)
  }

  lemma {:induction false} ShapeKept(rewrite: string -> Option<string>, ls: seq<string>)
    requires KeepsLines(rewrite) && AreLines(ls) && RewriteLines(rewrite, ls).Some?
    ensures var out := RewriteLines(rewrite, ls).value;
      && |out| == |ls| && AreLines(out)
      && (forall i :: 0 <= i < |ls| ==> rewrite(ls[i]) == Some(out[i]) && (EndsLine(out[i]) <==> EndsLine(ls[i])))
  {
    if ls != [] {
      ShapeKept(rewrite, ls[..|ls| - 1]);
      assert IsLine(ls[|ls| - 1]);
    }
  }

  lemma LayoutOf(content: string, out: seq<string>)
    requires AreLines(out) && |out| == |Lines(content)|
    requires out != [] ==> (EndsLine(out[|out| - 1]) <==> EndsLine(Lines(content)[|out| - 1]))
    ensures Lines(Concat(out)) == out
    ensures EndsLine(Concat(out)) <==> EndsLine(content)
  {
    LinesOfConcat(out);
    EndsWithLast(Concat(out));
    EndsWithLast(content);
  }

  lemma EndsWithLast(s: string)
    ensures EndsLine(s) <==> Lines(s) != [] && EndsLine(Lines(s)[|Lines(s)| - 1])
  {}

  /** Lines map to lines, and the final line feed is there exactly if it was. */
  lemma Layout(rewrite: string -> Option<string>, content: string, out: seq<string>)
    requires KeepsLines(rewrite) && RewriteLines(rewrite, Lines(content)) == Some(out)
    ensures Lines(Concat(out)) == out && |out| == |Lines(content)|
    ensures forall i :: 0 <= i < |out| ==> rewrite(Lines(content)[i]) == Some(out[i])
    ensures EndsLine(Concat(out)) <==> EndsLine(content)
  {
    ShapeKept(rewrite, Lines(content));
    LayoutOf(content, out);
  }

  lemma {:induction false} LinesFixed(rewrite: string -> Option<string>, ls: seq<string>)
    requires forall i :: 0 <= i < |ls| ==> rewrite(ls[i]) == Some(ls[i])
    ensures RewriteLines(rewrite, ls) == Some(ls)
  {
    if ls != [] {
      LinesFixed(rewrite, ls[..|ls| - 1]);
      assert ls == ls[..|ls| - 1] + [ls[|ls| - 1]];
    }
  }

  lemma Fixpoint(rewrite: string -> Option<string>, content: string, out: seq<string>)
    requires KeepsLines(rewrite) && RewriteLines(rewrite, Lines(content)) == Some(out)
    ensures RewriteLines(rewrite, Lines(Concat(out))) == Some(out)
  {
    Layout(rewrite, content, out);
    forall i | 0 <= i < |out| ensures rewrite(out[i]) == Some(out[i]) {
      assert IsLine(Lines(content)[i]);
    }
    LinesFixed(rewrite, out);
  }

  lemma RewriterKeepsLines(isKey: string -> bool)
    ensures KeepsLines(Rewriter(isKey))
  {
    forall l | IsLine(l) && RewriteLine(isKey, l).Some?
      ensures IsLine(RewriteLine(isKey, l).value) && (EndsLine(RewriteLine(isKey, l).value) <==> EndsLine(l))
      ensures RewriteLine(isKey, RewriteLine(isKey, l).value) == RewriteLine(isKey, l)
    {
      LineKept(isKey, l);
    }
  }

  /** The number of lines and the final line feed are preserved, and the i-th
      line of the result is the i-th line rewritten. */
  lemma LinesPreserved(isKey: string -> bool, content: string, out: seq<string>)
    requires RewriteLines(Rewriter(isKey), Lines(content)) == Some(out)
    ensures Lines(Concat(out)) == out && |out| == |Lines(content)|
    ensures forall i :: 0 <= i < |out| ==> RewriteLine(isKey, Lines(content)[i]) == Some(out[i])
    ensures EndsLine(Concat(out)) <==> EndsLine(content)
  {
    RewriterKeepsLines(isKey);
    Layout(Rewriter(isKey), content, out);
    forall i | 0 <= i < |out| ensures RewriteLine(isKey, Lines(content)[i]) == Some(out[i]) {
      assert Rewriter(isKey)(Lines(content)[i]) == Some(out[i]);
    }
  }

  /** Rewriting its own output changes nothing. */
  lemma Idempotent(isKey: string -> bool, content: string, out: seq<string>)
    requires RewriteLines(Rewriter(isKey), Lines(content)) == Some(out)
    ensures RewriteLines(Rewriter(isKey), Lines(Concat(out))) == Some(out)
  {
    RewriterKeepsLines(isKey);
    Fixpoint(Rewriter(isKey), content, out);
  }

  // Over the characters of a line

  ghost predicate IsKeyText(key: string) {
    exists k: string :: TrimsTo(key, k) && InAnyCase(k, "source_ip", "SOURCE_IP")
  }

  lemma KeyExactly(key: string)
    ensures IsSourceIpKey(key) <==> IsKeyText(key)
  {
    TrimmedOnly(key);
    SourceIpExactly(Trim(key));
  }

  /** A line that assigns a bare null to `source_ip`: the key in any case with
      whitespace around it, an equals sign, whitespace, the word in any case, and
      after it nothing, or whitespace or a comment. */
  ghost predicate AssignsNull(l: string, key: string, space: string, word: string, suffix: string, end: string) {
    && l == key + "=" + space + word + suffix + end
    && '=' !in key && IsKeyText(key) && White(space) && InAnyCase(word, "null", "NULL")
    && (suffix == "" || IsWhitespace(suffix[0]) || suffix[0] == '#')
    && '\n' !in key + "=" + space + word + suffix && (end == "" || end == "\n")
  }

  lemma BodyAssigns(l: string, key: string, space: string, word: string, suffix: string, end: string)
    requires AssignsNull(l, key, space, word, suffix, end)
    ensures Body(l) == key + "=" + space + word + suffix && (EndsLine(l) <==> end == "\n")
    ensures IsNullAssignment(IsSourceIpKey, Body(l), key, space, word, suffix)
  {
    var body := key + "=" + space + word + suffix;
    assert l == body + end;
    assert body[|body| - 1] in body;
    KeyExactly(key);
    NullExactly(word);
  }

  lemma AssignsBody(l: string, key: string, space: string, word: string, suffix: string)
    requires IsLine(l) && IsNullAssignment(IsSourceIpKey, Body(l), key, space, word, suffix)
    ensures AssignsNull(l, key, space, word, suffix, if EndsLine(l) then "\n" else "")
  {
    LineParts(l);
    KeyExactly(key);
    NullExactly(word);
  }

  lemma LineParts(l: string)
    requires IsLine(l)
    ensures l == Body(l) + (if EndsLine(l) then "\n" else "") && '\n' !in Body(l)
  {}

  /** The line itself, or, where it assigns a bare null, with the word quoted. */
  ghost predicate RewritesTo(l: string, m: string) {
    && (m != l <==> exists key, space, word, suffix, end :: AssignsNull(l, key, space, word, suffix, end))
    && (forall key, space, word, suffix, end :: AssignsNull(l, key, space, word, suffix, end) ==>
          m == key + "=" + (space + "\"null\"" + suffix) + end)
  }

  /** A rewritten line differs from the line exactly if it assigns a bare null,
      and then only in the word, which is quoted. */
  lemma LineExactly(l: string, m: string)
    requires IsLine(l) && RewriteLine(IsSourceIpKey, l) == Some(m)
    ensures RewritesTo(l, m)
  {
    RewritesExactly(IsSourceIpKey, Body(l));
    BodyAndEnd(l, m);
    forall key, space, word, suffix, end | AssignsNull(l, key, space, word, suffix, end)
      ensures m == key + "=" + (space + "\"null\"" + suffix) + end
      ensures exists key, space, word, suffix :: IsNullAssignment(IsSourceIpKey, Body(l), key, space, word, suffix)
    {
      BodyAssigns(l, key, space, word, suffix, end);
      AssignmentQuoted(IsSourceIpKey, Body(l), key, space, word, suffix);
    }
    if key, space, word, suffix :| IsNullAssignment(IsSourceIpKey, Body(l), key, space, word, suffix) {
      AssignsBody(l, key, space, word, suffix);
    }
  }

  lemma BodyAndEnd(l: string, m: string)
    requires RewriteLine(IsSourceIpKey, l) == Some(m)
    ensures RewriteBody(IsSourceIpKey, Body(l)).Some?
    ensures var end := if EndsLine(l) then "\n" else "";
      l == Body(l) + end && m == RewriteBody(IsSourceIpKey, Body(l)).value + end
    ensures m != l <==> RewriteBody(IsSourceIpKey, Body(l)).value != Body(l)
  {
    var end := if EndsLine(l) then "\n" else "";
    assert l == Body(l) + end;
    SameEnd(Body(l), RewriteBody(IsSourceIpKey, Body(l)).value, end);
  }

  lemma SameEnd(a: string, b: string, end: string)
    ensures a + end == b + end <==> a == b
  {
    if a + end == b + end {
      assert a == (a + end)[..|a|] && b == (b + end)[..|b|];
    }
  }

  // The rewriter itself

  function Sanitized(content: string): Option<string> {
    match RewriteLines(Rewriter(IsSourceIpKey), Lines(content))
    case Some(ls) => Some(Concat(ls))
    case None => None
  }

  /** The loop over the lines, for any way of rewriting one. */
  method RewriteText(rewrite: string -> Option<string>, lines: seq<string>) returns (text: Option<string>)
    ensures text == match RewriteLines(rewrite, lines) { case Some(ls) => Some(Concat(ls)) case None => None }
  {
    var sanitized := "";
    ghost var done: seq<string> := [];
    var i := 0;
    while i < |lines|
      invariant 0 <= i <= |lines|
      invariant RewriteLines(rewrite, lines[..i]) == Some(done) && sanitized == Concat(done)
    {
      var replaced := rewrite(lines[i]);
      RewriteSnoc(rewrite, lines, i);
      if replaced.None? {
        PanicSpreads(rewrite, lines, i + 1);
        return None;
      }
      ConcatSnoc(done, replaced.value);
      done := done + [replaced.value];
      sanitized := sanitized + replaced.value;
      i := i + 1;
    }
    assert lines[..i] == lines;
    return Some(sanitized);
  }

  /** The final correction: drop a line feed the original did not end with. */
  function PopStray(content: string, text: string): (string, bool) {
    if !EndsLine(content) && EndsLine(text) then (text[..|text| - 1], true) else (text, false)
  }

  /** The whole rewriter; `popped` tells whether its final correction ever applied. */
  method SanitizeSpecialValues(content: string) returns (sanitized: Option<string>, popped: bool)
    ensures sanitized == Sanitized(content)
    ensures !popped
  {
    popped := false;
    var rewrite := Rewriter(IsSourceIpKey);
    sanitized := RewriteText(rewrite, Lines(content));
    if sanitized.None? {
      return;
    }
    NeverPops(rewrite, content) by { RewriterKeepsLines(IsSourceIpKey); }
    var corrected := PopStray(content, sanitized.value);
    sanitized, popped := Some(corrected.0), corrected.1;
  }

  lemma SanitizedText(content: string, out: seq<string>)
    requires RewriteLines(Rewriter(IsSourceIpKey), Lines(content)) == Some(out)
    ensures Sanitized(content) == Some(Concat(out))
  {}

  lemma LinesRelated(rewrite: string -> Option<string>, related: (string, string) -> bool, ls: seq<string>, out: seq<string>)
    requires KeepsLines(rewrite) && AreLines(ls) && RewriteLines(rewrite, ls) == Some(out)
    requires forall l, m :: IsLine(l) && rewrite(l) == Some(m) ==> related(l, m)
    ensures |out| == |ls| && forall i :: 0 <= i < |out| ==> related(ls[i], out[i])
  {
    ShapeKept(rewrite, ls);
    Pointwise(rewrite, related, ls, out);
  }

  lemma Pointwise(rewrite: string -> Option<string>, related: (string, string) -> bool, ls: seq<string>, out: seq<string>)
    requires |ls| == |out| && forall i :: 0 <= i < |ls| ==> IsLine(ls[i]) && rewrite(ls[i]) == Some(out[i])
    requires forall l, m :: IsLine(l) && rewrite(l) == Some(m) ==> related(l, m)
    ensures forall i :: 0 <= i < |ls| ==> related(ls[i], out[i])
  {}

  /** The text the rewriter gives, line by line. */
  lemma SanitizedExactly(content: string, out: seq<string>)
    requires RewriteLines(Rewriter(IsSourceIpKey), Lines(content)) == Some(out)
    ensures |out| == |Lines(content)|
    ensures forall i :: 0 <= i < |out| ==> RewritesTo(Lines(content)[i], out[i])
  {
    RewriterKeepsLines(IsSourceIpKey);
    forall l, m | IsLine(l) && Rewriter(IsSourceIpKey)(l) == Some(m) ensures RewritesTo(l, m) {
      LineExactly(l, m);
    }
    LinesRelated(Rewriter(IsSourceIpKey), (l, m) => RewritesTo(l, m), Lines(content), out);
  }

  lemma NeverPops(rewrite: string -> Option<string>, content: string)
    requires KeepsLines(rewrite) && RewriteLines(rewrite, Lines(content)).Some?
    ensures EndsLine(Concat(RewriteLines(rewrite, Lines(content)).value)) <==> EndsLine(content)
  {
    Layout(rewrite, content, RewriteLines(rewrite, Lines(content)).value);
  }
}
