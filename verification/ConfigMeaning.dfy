/** What an accepted configuration is and what a validation reports, stated over
    the text of the sections. */
module ConfigMeaning {
  import opened Basics
  import opened ConfigText
  import opened TextMeaning
  import opened Config

  // Addresses

  lemma LastPortExactly(address: string, host: Option<string>, port: nat)
    ensures HostAndPort(address, host, port) <==>
      LastPort(address) == Some(port) && host == if ':' in address then Some(Host(address, ':')) else None
  {
    var last := AfterLast(address, ':');
    var head := AfterLastTail(address, ':');
    PortExactly(last, port);
    CutExactly(address, host, last);
    if HostAndPort(address, host, port) {
      var t: string :| Around(address, host, t) && Numeral(t, port);
      NumeralHasNoColon(t, port);
      CutExactly(address, host, t);
    }
  }

  /** The host of a forward target: the one its text names, or this machine. */
  lemma RemoteHostExactly(remote: string, host: Option<string>, port: nat)
    requires HostAndPort(remote, host, port)
    ensures RemoteHost(remote) == if host.Some? then host.value else "localhost"
  {
    LastPortExactly(remote, host, port);
  }

  /** A listening address has at most one colon. */
  ghost predicate ListensOn(local: string, host: Option<string>, port: nat) {
    HostAndPort(local, host, port) && (host.Some? ==> ':' !in host.value)
  }

  lemma TwoParts(h: string, t: string)
    requires ':' !in t
    ensures |Split(h + ":" + t, ':')| == 2 <==> ':' !in h
    ensures |Split(h + ":" + t, ':')| == 2 ==> Split(h + ":" + t, ':')[1] == t
  {
    var s := h + ":" + t;
    assert s[|h|] == ':';
    JoinSplit(s, ':');
    PartsLack(s, ':');
    OneCut(s, h, t);
    HostPortRebuild(s, ':');
    SplitCount(s, ':');
    CountConcat(h, ":", ':');
    CountConcat(h + ":", t, ':');
    assert ":"[1..] == "";
    CountZero(h, ':');
    CountZero(t, ':');
  }

  function Count(s: string, c: char): nat {
    if s == "" then 0 else (if s[0] == c then 1 else 0) + Count(s[1..], c)
  }

  lemma {:induction false} SplitCount(s: string, c: char)
    ensures |Split(s, c)| == Count(s, c) + 1
  {
    if s != "" {
      SplitCount(s[1..], c);
    }
  }

  lemma {:induction false} CountConcat(a: string, b: string, c: char)
    ensures Count(a + b, c) == Count(a, c) + Count(b, c)
  {
    if a == "" {
      assert a + b == b;
    } else {
      CountConcat(a[1..], b, c);
      assert (a + b)[1..] == a[1..] + b;
    }
  }

  lemma {:induction false} CountZero(s: string, c: char)
    ensures Count(s, c) == 0 <==> c !in s
  {
    if s != "" {
      CountZero(s[1..], c);
      assert s == [s[0]] + s[1..];
    }
  }

  lemma LocalPortExactly(local: string, port: nat)
    ensures LocalPort(local) == Some(port) <==> exists host :: ListensOn(local, host, port)
  {
    var host := if ':' in local then Some(Host(local, ':')) else None;
    LastPortExactly(local, host, port);
    LocalIsLast(local);
    if host2: Option<string> :| ListensOn(local, host2, port) {
      LastPortExactly(local, host2, port);
    }
    if LocalPort(local) == Some(port) {
      assert ListensOn(local, host, port);
    }
  }

  lemma LocalIsLast(local: string)
    ensures LocalPort(local) == if ':' in local && ':' in Host(local, ':') then None else LastPort(local)
  {
    if ':' in local {
      HostPortRebuild(local, ':');
      var head := AfterLastTail(local, ':');
      TwoParts(Host(local, ':'), AfterLast(local, ':'));
    }
  }

  // Sources

  /** Nothing but whitespace, or the word null in any case. */
  ghost predicate Ignorable(source: string) {
    exists t: string :: TrimsTo(source, t) && (t == "" || InAnyCase(t, "null", "NULL"))
  }

  ghost predicate IpText(isIp: string -> bool, text: string) {
    exists t: string :: TrimsTo(text, t) && t != "" && isIp(t)
  }

  lemma SourceExactly(isIp: string -> bool, source: Option<string>)
    ensures SourceOf(isIp, source) == Absent <==> source.None?
    ensures SourceOf(isIp, source) == Blank <==> source.Some? && TrimsTo(source.value, "")
    ensures SourceOf(isIp, source) in {Blank, NullWord} <==> source.Some? && Ignorable(source.value)
    ensures SourceOf(isIp, source) == Garbage <==>
      source.Some? && !Ignorable(source.value) && !IpText(isIp, source.value)
  {
    if source.Some? {
      TrimmedOnly(source.value);
      NullExactly(Trim(source.value));
    }
  }

  lemma BindExactly(isIp: string -> bool, bindIp: Option<string>)
    ensures BindOf(isIp, bindIp) == NoBind <==> bindIp.None?
    ensures BindOf(isIp, bindIp) == BlankBind <==> bindIp.Some? && TrimsTo(bindIp.value, "")
    ensures BindOf(isIp, bindIp) == BadBind <==> bindIp.Some? && !TrimsTo(bindIp.value, "") && !IpText(isIp, bindIp.value)
    ensures forall t: string :: BindOf(isIp, bindIp) == GoodBind(t) <==>
      bindIp.Some? && TrimsTo(bindIp.value, t) && t != "" && isIp(t)
  {
    if bindIp.Some? {
      TrimmedOnly(bindIp.value);
    }
  }

  // Sections

  ghost predicate ProxyListens(p: ProxySection, port: nat) {
    exists host :: ListensOn(p.local, host, port)
  }

  ghost predicate ReachesPort(address: string, port: nat) {
    exists host :: HostAndPort(address, host, port)
  }

  ghost predicate AcceptableSource(isIp: string -> bool, source: Option<string>) {
    source.Some? ==> Ignorable(source.value) || IpText(isIp, source.value)
  }

  lemma ReachesExactly(address: string, port: nat)
    ensures LastPort(address) == Some(port) <==> ReachesPort(address, port)
  {
    var host := if ':' in address then Some(Host(address, ':')) else None;
    LastPortExactly(address, host, port);
    if host2: Option<string> :| HostAndPort(address, host2, port) {
      LastPortExactly(address, host2, port);
    }
  }

  /** What validation reads off a forward proxy. */
  lemma ProxyFactsExactly(isIp: string -> bool, p: ProxySection)
    ensures var f := ProxyFacts(isIp, p);
      && (forall port: nat :: f.own == Some(port) <==> ProxyListens(p, port))
      && (forall port: nat :: f.target == Some(port) <==> ReachesPort(p.remote, port))
      && (f.source != Garbage <==> AcceptableSource(isIp, p.sourceIp))
      && (f.source in {Blank, NullWord} <==> p.sourceIp.Some? && Ignorable(p.sourceIp.value))
  {
    forall port: nat ensures LocalPort(p.local) == Some(port) <==> ProxyListens(p, port) { LocalPortExactly(p.local, port); }
    forall port: nat ensures LastPort(p.remote) == Some(port) <==> ReachesPort(p.remote, port) { ReachesExactly(p.remote, port); }
    SourceExactly(isIp, p.sourceIp);
  }

  /** And off a reverse proxy. */
  lemma ReverseFactsExactly(isIp: string -> bool, p: ReverseProxySection)
    ensures var f := ReverseFacts(isIp, p);
      && (forall port: nat :: f.own == Some(port) <==> ReachesPort(p.server, port))
      && (forall port: nat :: f.target == Some(port) <==> ReachesPort(p.local, port))
      && (f.source != Garbage <==> AcceptableSource(isIp, p.sourceIp))
      && (f.source in {Blank, NullWord} <==> p.sourceIp.Some? && Ignorable(p.sourceIp.value))
  {
    forall port: nat ensures LastPort(p.server) == Some(port) <==> ReachesPort(p.server, port) { ReachesExactly(p.server, port); }
    forall port: nat ensures LastPort(p.local) == Some(port) <==> ReachesPort(p.local, port) { ReachesExactly(p.local, port); }
    SourceExactly(isIp, p.sourceIp);
  }

  // Acceptance

  ghost predicate ProxyOk(isIp: string -> bool, p: ProxySection) {
    && (exists port: nat :: ProxyListens(p, port) && port != 0)
    && (exists port: nat :: ReachesPort(p.remote, port) && port != 0)
    && AcceptableSource(isIp, p.sourceIp)
  }

  ghost predicate ReverseOk(isIp: string -> bool, p: ReverseProxySection) {
    && (exists port: nat :: ReachesPort(p.server, port) && port != 0)
    && (exists port: nat :: ReachesPort(p.local, port) && port != 0)
    && AcceptableSource(isIp, p.sourceIp)
  }

  ghost predicate BindOk(isIp: string -> bool, bindIp: Option<string>) {
    bindIp.Some? ==> TrimsTo(bindIp.value, "") || IpText(isIp, bindIp.value)
  }

  /** The whole configuration as its text must be. */
  ghost predicate Acceptable(isIp: string -> bool, c: Contents) {
    && (c.reverseProxies != [] ==> c.hasReverseServer || c.hasReverseClient)
    && BindOk(isIp, c.bindIp)
    && (forall i :: 0 <= i < |c.proxies| ==> ProxyOk(isIp, c.proxies[i]))
    && (forall i :: 0 <= i < |c.reverseProxies| ==> ReverseOk(isIp, c.reverseProxies[i]))
    && (forall i, j, port: nat :: 0 <= i < j < |c.proxies| ==>
          !(ProxyListens(c.proxies[i], port) && ProxyListens(c.proxies[j], port)))
    && (forall i, j, port: nat :: 0 <= i < j < |c.reverseProxies| ==>
          !(ReachesPort(c.reverseProxies[i].server, port) && ReachesPort(c.reverseProxies[j].server, port)))
  }

  lemma FineProxies(isIp: string -> bool, ps: seq<ProxySection>)
    ensures Fine(AllProxyFacts(isIp, ps)) <==>
      && (forall i :: 0 <= i < |ps| ==> ProxyOk(isIp, ps[i]))
      && (forall i, j, port: nat :: 0 <= i < j < |ps| ==> !(ProxyListens(ps[i], port) && ProxyListens(ps[j], port)))
  {
    var fs := AllProxyFacts(isIp, ps);
    forall i | 0 <= i < |ps|
      ensures Usable(fs[i].own) && Usable(fs[i].target) && fs[i].source != Garbage <==> ProxyOk(isIp, ps[i])
      ensures forall port: nat :: fs[i].own == Some(port) <==> ProxyListens(ps[i], port)
    {
      ProxyFactsExactly(isIp, ps[i]);
    }
    FineOver(fs, (i: int) => if 0 <= i < |ps| then ProxyOk(isIp, ps[i]) else false,
             (i: int, port: nat) => if 0 <= i < |ps| then ProxyListens(ps[i], port) else false);
  }

  /** Fine facts, with names for what they say of each section. */
  lemma FineOver(fs: seq<Facts>, ok: int -> bool, listens: (int, nat) -> bool)
    requires forall i :: 0 <= i < |fs| ==>
      (ok(i) <==> Usable(fs[i].own) && Usable(fs[i].target) && fs[i].source != Garbage)
    requires forall i, port: nat :: 0 <= i < |fs| ==> (listens(i, port) <==> fs[i].own == Some(port))
    ensures Fine(fs) <==>
      && (forall i :: 0 <= i < |fs| ==> ok(i))
      && (forall i, j, port: nat :: 0 <= i < j < |fs| ==> !(listens(i, port) && listens(j, port)))
  {}

  lemma FineReverse(isIp: string -> bool, ps: seq<ReverseProxySection>)
    ensures Fine(AllReverseFacts(isIp, ps)) <==>
      && (forall i :: 0 <= i < |ps| ==> ReverseOk(isIp, ps[i]))
      && (forall i, j, port: nat :: 0 <= i < j < |ps| ==>
            !(ReachesPort(ps[i].server, port) && ReachesPort(ps[j].server, port)))
  {
    var fs := AllReverseFacts(isIp, ps);
    forall i | 0 <= i < |ps|
      ensures Usable(fs[i].own) && Usable(fs[i].target) && fs[i].source != Garbage <==> ReverseOk(isIp, ps[i])
      ensures forall port: nat :: fs[i].own == Some(port) <==> ReachesPort(ps[i].server, port)
    {
      ReverseFactsExactly(isIp, ps[i]);
    }
    FineOver(fs, (i: int) => if 0 <= i < |ps| then ReverseOk(isIp, ps[i]) else false,
             (i: int, port: nat) => if 0 <= i < |ps| then ReachesPort(ps[i].server, port) else false);
  }

  /** Validation reports no error exactly if the text is acceptable. */
  lemma AcceptanceExactly(isIp: string -> bool, c: Contents)
    ensures Findings(isIp, c).errors == [] <==> Acceptable(isIp, c)
  {
    ValidationExact(isIp, c);
    BindExactly(isIp, c.bindIp);
    FineProxies(isIp, c.proxies);
    FineReverse(isIp, c.reverseProxies);
  }

  // Repairs

  /** A forward proxy loses an ignorable source if its ports can be read, and
      nothing else; the server's address is trimmed, or becomes loopback. */
  lemma RepairExactly(isIp: string -> bool, c: Contents, i: nat)
    requires i < |c.proxies|
    ensures var p, q := c.proxies[i], Repaired(isIp, c).proxies[i];
      q == if (exists port: nat :: ProxyListens(p, port)) && (exists port: nat :: ReachesPort(p.remote, port))
              && p.sourceIp.Some? && Ignorable(p.sourceIp.value)
           then ProxySection(p.local, p.remote, None) else p
  {
    var p := c.proxies[i];
    ProxyFactsExactly(isIp, p);
    var f := ProxyFacts(isIp, p);
    assert f.own.Some? ==> ProxyListens(p, f.own.value);
    assert f.target.Some? ==> ReachesPort(p.remote, f.target.value);
  }

  lemma BindRepairExactly(isIp: string -> bool, c: Contents)
    ensures var d := Repaired(isIp, c);
      && d.reverseProxies == c.reverseProxies
      && d.hasReverseServer == c.hasReverseServer && d.hasReverseClient == c.hasReverseClient
      && (c.bindIp.None? ==> d.bindIp == None)
      && (c.bindIp.Some? && TrimsTo(c.bindIp.value, "") ==> d.bindIp == Some("127.0.0.1"))
      && (forall t: string :: c.bindIp.Some? && TrimsTo(c.bindIp.value, t) && t != "" ==>
            d.bindIp == if isIp(t) then Some(t) else c.bindIp)
  {
    BindExactly(isIp, c.bindIp);
    if c.bindIp.Some? {
      TrimmedOnly(c.bindIp.value);
    }
  }

  // Reports

  ghost predicate Parsed(f: Facts) {
    f.own.Some? && f.target.Some?
  }

  /** Which findings concern the first n sections. */
  ghost predicate ProxyIssue(fs: seq<Facts>, x: Issue) {
    match x
    case BadLocal(i) => i < |fs| && fs[i].own == None
    case ZeroLocalPort(i) => i < |fs| && fs[i].own == Some(0)
    case BadRemote(i) => i < |fs| && fs[i].own.Some? && fs[i].target == None
    case ZeroRemotePort(i) => i < |fs| && fs[i].own.Some? && fs[i].target == Some(0)
    case DuplicateLocalPort(port, i) =>
      i < |fs| && Parsed(fs[i]) && fs[i].own == Some(port)
      && exists j :: 0 <= j < i && Parsed(fs[j]) && fs[j].own == Some(port)
    case BadSourceIp(i) => i < |fs| && Parsed(fs[i]) && fs[i].source == Garbage
    case _ => false
  }

  ghost predicate ReverseIssue(fs: seq<Facts>, x: Issue) {
    match x
    case BadServer(i) => i < |fs| && fs[i].own == None
    case ZeroServerPort(i) => i < |fs| && fs[i].own == Some(0)
    case DuplicateServerPort(port, i) =>
      i < |fs| && fs[i].own == Some(port) && exists j :: 0 <= j < i && fs[j].own == Some(port)
    case BadReverseLocal(i) => i < |fs| && fs[i].own.Some? && fs[i].target == None
    case ZeroReverseLocalPort(i) => i < |fs| && fs[i].own.Some? && fs[i].target == Some(0)
    case BadReverseSourceIp(i) => i < |fs| && Parsed(fs[i]) && fs[i].source == Garbage
    case _ => false
  }

  ghost predicate ProxyNote(fs: seq<Facts>, x: Warning) {
    match x
    case EmptySourceIp(i) => i < |fs| && Parsed(fs[i]) && fs[i].source == Blank
    case NullSourceIp(i) => i < |fs| && Parsed(fs[i]) && fs[i].source == NullWord
    case _ => false
  }

  ghost predicate ReverseNote(fs: seq<Facts>, x: Warning) {
    match x
    case EmptyReverseSourceIp(i) => i < |fs| && Parsed(fs[i]) && fs[i].source == Blank
    case NullReverseSourceIp(i) => i < |fs| && Parsed(fs[i]) && fs[i].source == NullWord
    case _ => false
  }

  lemma {:induction false} ProxySeen(start: Tally, fs: seq<Facts>, port: nat)
    requires start.seen == {}
    ensures port in TallyAll(TallyProxy, start, fs).seen <==>
      exists j :: 0 <= j < |fs| && Parsed(fs[j]) && fs[j].own == Some(port)
  {
    if fs != [] {
      ProxySeen(start, fs[..|fs| - 1], port);
    }
  }

  /** What the section at `at` adds. */
  ghost predicate NewProxyIssue(seen: set<nat>, f: Facts, at: nat, x: Issue) {
    match x
    case BadLocal(i) => i == at && f.own == None
    case ZeroLocalPort(i) => i == at && f.own == Some(0)
    case BadRemote(i) => i == at && f.own.Some? && f.target == None
    case ZeroRemotePort(i) => i == at && f.own.Some? && f.target == Some(0)
    case DuplicateLocalPort(port, i) => i == at && Parsed(f) && f.own == Some(port) && port in seen
    case BadSourceIp(i) => i == at && Parsed(f) && f.source == Garbage
    case _ => false
  }

  lemma ProxyAdds(t: Tally, f: Facts, at: nat, x: Issue)
    ensures x in TallyProxy(t, f, at).errors <==> x in t.errors || NewProxyIssue(t.seen, f, at, x)
  {}

  lemma ProxyIssueSnoc(start: Tally, fs: seq<Facts>, x: Issue)
    requires start.seen == {} && fs != []
    ensures var n := |fs| - 1;
      var seen := TallyAll(TallyProxy, start, fs[..n]).seen;
      ProxyIssue(fs, x) <==> ProxyIssue(fs[..n], x) || NewProxyIssue(seen, fs[n], n, x)
  {
    if x.DuplicateLocalPort? {
      ProxySeen(start, fs[..|fs| - 1], x.port);
    }
  }

  lemma {:induction false} ProxyErrors(start: Tally, fs: seq<Facts>, x: Issue)
    requires start.seen == {}
    ensures x in TallyAll(TallyProxy, start, fs).errors <==> x in start.errors || ProxyIssue(fs, x)
  {
    if fs != [] {
      var n := |fs| - 1;
      var t := TallyAll(TallyProxy, start, fs[..n]);
      ProxyErrors(start, fs[..n], x);
      ProxyAdds(t, fs[n], n, x);
      ProxyIssueSnoc(start, fs, x);
    }
  }

  ghost predicate NewProxyNote(f: Facts, at: nat, x: Warning) {
    match x
    case EmptySourceIp(i) => i == at && Parsed(f) && f.source == Blank
    case NullSourceIp(i) => i == at && Parsed(f) && f.source == NullWord
    case _ => false
  }

  lemma ProxyNotes(t: Tally, f: Facts, at: nat, x: Warning)
    ensures x in TallyProxy(t, f, at).warnings <==> x in t.warnings || NewProxyNote(f, at, x)
  {}

  lemma ProxyNoteSnoc(fs: seq<Facts>, x: Warning)
    requires fs != []
    ensures var n := |fs| - 1; ProxyNote(fs, x) <==> ProxyNote(fs[..n], x) || NewProxyNote(fs[n], n, x)
  {}

  lemma {:induction false} ProxyWarnings(start: Tally, fs: seq<Facts>, x: Warning)
    ensures x in TallyAll(TallyProxy, start, fs).warnings <==> x in start.warnings || ProxyNote(fs, x)
  {
    if fs != [] {
      var n := |fs| - 1;
      ProxyWarnings(start, fs[..n], x);
      ProxyNotes(TallyAll(TallyProxy, start, fs[..n]), fs[n], n, x);
      ProxyNoteSnoc(fs, x);
    }
  }

  lemma {:induction false} ReverseSeen(start: Tally, fs: seq<Facts>, port: nat)
    requires start.seen == {}
    ensures port in TallyAll(TallyReverse, start, fs).seen <==>
      exists j :: 0 <= j < |fs| && fs[j].own == Some(port)
  {
    if fs != [] {
      ReverseSeen(start, fs[..|fs| - 1], port);
    }
  }

  /** What the section at `at` adds. */
  ghost predicate NewReverseIssue(seen: set<nat>, f: Facts, at: nat, x: Issue) {
    match x
    case BadServer(i) => i == at && f.own == None
    case ZeroServerPort(i) => i == at && f.own == Some(0)
    case DuplicateServerPort(port, i) => i == at && f.own == Some(port) && port in seen
    case BadReverseLocal(i) => i == at && f.own.Some? && f.target == None
    case ZeroReverseLocalPort(i) => i == at && f.own.Some? && f.target == Some(0)
    case BadReverseSourceIp(i) => i == at && Parsed(f) && f.source == Garbage
    case _ => false
  }

  lemma ReverseAdds(t: Tally, f: Facts, at: nat, x: Issue)
    ensures x in TallyReverse(t, f, at).errors <==> x in t.errors || NewReverseIssue(t.seen, f, at, x)
  {}

  lemma ReverseIssueSnoc(start: Tally, fs: seq<Facts>, x: Issue)
    requires start.seen == {} && fs != []
    ensures var n := |fs| - 1;
      var seen := TallyAll(TallyReverse, start, fs[..n]).seen;
      ReverseIssue(fs, x) <==> ReverseIssue(fs[..n], x) || NewReverseIssue(seen, fs[n], n, x)
  {
    if x.DuplicateServerPort? {
      ReverseSeen(start, fs[..|fs| - 1], x.port);
    }
  }

  lemma {:induction false} ReverseErrors(start: Tally, fs: seq<Facts>, x: Issue)
    requires start.seen == {}
    ensures x in TallyAll(TallyReverse, start, fs).errors <==> x in start.errors || ReverseIssue(fs, x)
  {
    if fs != [] {
      var n := |fs| - 1;
      var t := TallyAll(TallyReverse, start, fs[..n]);
      ReverseErrors(start, fs[..n], x);
      ReverseAdds(t, fs[n], n, x);
      ReverseIssueSnoc(start, fs, x);
    }
  }

  ghost predicate NewReverseNote(f: Facts, at: nat, x: Warning) {
    match x
    case EmptyReverseSourceIp(i) => i == at && Parsed(f) && f.source == Blank
    case NullReverseSourceIp(i) => i == at && Parsed(f) && f.source == NullWord
    case _ => false
  }

  lemma ReverseNotes(t: Tally, f: Facts, at: nat, x: Warning)
    ensures x in TallyReverse(t, f, at).warnings <==> x in t.warnings || NewReverseNote(f, at, x)
  {}

  lemma ReverseNoteSnoc(fs: seq<Facts>, x: Warning)
    requires fs != []
    ensures var n := |fs| - 1; ReverseNote(fs, x) <==> ReverseNote(fs[..n], x) || NewReverseNote(fs[n], n, x)
  {}

  lemma {:induction false} ReverseWarnings(start: Tally, fs: seq<Facts>, x: Warning)
    ensures x in TallyAll(TallyReverse, start, fs).warnings <==> x in start.warnings || ReverseNote(fs, x)
  {
    if fs != [] {
      var n := |fs| - 1;
      ReverseWarnings(start, fs[..n], x);
      ReverseNotes(TallyAll(TallyReverse, start, fs[..n]), fs[n], n, x);
      ReverseNoteSnoc(fs, x);
    }
  }

  /** Every error, and nothing else, is reported. */
  lemma ErrorsExactly(isIp: string -> bool, c: Contents, x: Issue)
    ensures x in Findings(isIp, c).errors <==>
      || (x == NoReverseEndpoint && c.reverseProxies != [] && !c.hasReverseServer && !c.hasReverseClient)
      || (x == BadBindIp && !BindOk(isIp, c.bindIp))
      || ProxyIssue(AllProxyFacts(isIp, c.proxies), x)
      || ReverseIssue(AllReverseFacts(isIp, c.reverseProxies), x)
  {
    var b := BindOf(isIp, c.bindIp);
    BindExactly(isIp, c.bindIp);
    FindingsErrors(b, isIp, c, x);
  }

  lemma FindingsErrors(b: Bind, isIp: string -> bool, c: Contents, x: Issue)
    ensures x in FindingsWith(b, isIp, c).errors <==>
      || (x == NoReverseEndpoint && c.reverseProxies != [] && !c.hasReverseServer && !c.hasReverseClient)
      || (x == BadBindIp && b == BadBind)
      || ProxyIssue(AllProxyFacts(isIp, c.proxies), x)
      || ReverseIssue(AllReverseFacts(isIp, c.reverseProxies), x)
  {
    var ps, start := AllProxyFacts(isIp, c.proxies), TallyBind(b, c);
    ProxyErrors(start, ps, x);
    ReverseErrors(TallyAll(TallyProxy, start, ps).(seen := {}), AllReverseFacts(isIp, c.reverseProxies), x);
  }

  /** And every warning. */
  lemma WarningsExactly(isIp: string -> bool, c: Contents, x: Warning)
    ensures x in Findings(isIp, c).warnings <==>
      || (x == EmptyBindIp && c.bindIp.Some? && TrimsTo(c.bindIp.value, ""))
      || ProxyNote(AllProxyFacts(isIp, c.proxies), x)
      || ReverseNote(AllReverseFacts(isIp, c.reverseProxies), x)
  {
    var b := BindOf(isIp, c.bindIp);
    BindExactly(isIp, c.bindIp);
    FindingsWarnings(b, isIp, c, x);
  }

  lemma FindingsWarnings(b: Bind, isIp: string -> bool, c: Contents, x: Warning)
    ensures x in FindingsWith(b, isIp, c).warnings <==>
      || (x == EmptyBindIp && b == BlankBind)
      || ProxyNote(AllProxyFacts(isIp, c.proxies), x)
      || ReverseNote(AllReverseFacts(isIp, c.reverseProxies), x)
  {
    var ps, start := AllProxyFacts(isIp, c.proxies), TallyBind(b, c);
    ProxyWarnings(start, ps, x);
    ReverseWarnings(TallyAll(TallyProxy, start, ps).(seen := {}), AllReverseFacts(isIp, c.reverseProxies), x);
  }
}
