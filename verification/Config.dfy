/** The configuration file as far as `validate` reads it, and the validation
    with its accumulated errors, warnings and repairs. */
module Config {
  import opened Basics
  import opened ConfigText

  datatype ProxySection = ProxySection(local: string, remote: string, sourceIp: Option<string>)
  datatype ReverseProxySection = ReverseProxySection(server: string, local: string, sourceIp: Option<string>)

  /** `bindIp` is that of the server section, if there is one. */
  datatype Contents = Contents(
    bindIp: Option<string>,
    proxies: seq<ProxySection>,
    reverseProxies: seq<ReverseProxySection>,
    hasReverseServer: bool,
    hasReverseClient: bool)

  // Addresses

  /** Either a bare port or exactly two parts. */
  function LocalPort(local: string): Option<nat> {
    if ':' in local then
      var parts := Split(local, ':');
      if |parts| != 2 then None else ParseU16(parts[1])
    else ParseU16(local)
  }

  /** A bare port, or whatever follows the last colon. */
  function LastPort(address: string): Option<nat> {
    if ':' in address then ParseU16(AfterLast(address, ':')) else ParseU16(address)
  }

  function RemoteHost(remote: string): string {
    if ':' in remote then Host(remote, ':') else "localhost"
  }

  /** Whatever host and port text are read off an address with a colon, they
      are its two halves around the last one. */
  lemma AddressHalves(address: string)
    requires ':' in address
    ensures RemoteHost(address) + ":" + AfterLast(address, ':') == address
    ensures LastPort(address) == ParseU16(Split(address, ':')[|Split(address, ':')| - 1])
    ensures ':' !in AfterLast(address, ':')
  {
    HostPortRebuild(address, ':');
    var head := AfterLastTail(address, ':');
  }

  // What validation reads off a section

  /** IP literals are recognised by `isIp`, left uninterpreted. */
  datatype Source = Absent | Blank | NullWord | Literal | Garbage

  function SourceOf(isIp: string -> bool, sourceIp: Option<string>): Source {
    if sourceIp.None? then Absent
    else
      var trimmed := Trim(sourceIp.value);
      if trimmed == "" then Blank
      else if EqIgnoreCase(trimmed, "null") then NullWord
      else if isIp(trimmed) then Literal
      else Garbage
  }

  /** The port a section listens on, the port it forwards to, its source. */
  datatype Facts = Facts(own: Option<nat>, target: Option<nat>, source: Source)

  function ProxyFacts(isIp: string -> bool, p: ProxySection): Facts {
    Facts(LocalPort(p.local), LastPort(p.remote), SourceOf(isIp, p.sourceIp))
  }

  function ReverseFacts(isIp: string -> bool, p: ReverseProxySection): Facts {
    Facts(LastPort(p.server), LastPort(p.local), SourceOf(isIp, p.sourceIp))
  }

  function AllProxyFacts(isIp: string -> bool, ps: seq<ProxySection>): (fs: seq<Facts>)
    ensures |fs| == |ps|
  {
    seq(|ps|, i requires 0 <= i < |ps| => ProxyFacts(isIp, ps[i]))
  }

  function AllReverseFacts(isIp: string -> bool, ps: seq<ReverseProxySection>): (fs: seq<Facts>)
    ensures |fs| == |ps|
  {
    seq(|ps|, i requires 0 <= i < |ps| => ReverseFacts(isIp, ps[i]))
  }

  // Well-formed configurations

  predicate Usable(port: Option<nat>) {
    port.Some? && port.value != 0
  }

  /** Both ports usable, the source valid or ignorable, no two sections on the
      same port. */
  ghost predicate Fine(fs: seq<Facts>) {
    && (forall i :: 0 <= i < |fs| ==> Usable(fs[i].own) && Usable(fs[i].target) && fs[i].source != Garbage)
    && (forall i, j :: 0 <= i < j < |fs| ==> fs[i].own != fs[j].own)
  }

  /** What validation makes of `server.bind_ip`. */
  datatype Bind = NoBind | BlankBind | BadBind | GoodBind(trimmed: string)

  function BindOf(isIp: string -> bool, bindIp: Option<string>): Bind {
    if bindIp.None? then NoBind
    else
      var trimmed := Trim(bindIp.value);
      if trimmed == "" then BlankBind else if isIp(trimmed) then GoodBind(trimmed) else BadBind
  }

  ghost predicate WellFormed(isIp: string -> bool, c: Contents) {
    && (c.reverseProxies != [] ==> c.hasReverseServer || c.hasReverseClient)
    && BindOf(isIp, c.bindIp) != BadBind
    && Fine(AllProxyFacts(isIp, c.proxies))
    && Fine(AllReverseFacts(isIp, c.reverseProxies))
  }

  // Issues

  datatype Issue =
    | NoReverseEndpoint | BadBindIp
    | BadLocal(at: nat) | ZeroLocalPort(at: nat)
    | BadRemote(at: nat) | ZeroRemotePort(at: nat)
    | DuplicateLocalPort(port: nat, at: nat) | BadSourceIp(at: nat)
    | BadServer(at: nat) | ZeroServerPort(at: nat) | DuplicateServerPort(port: nat, at: nat)
    | BadReverseLocal(at: nat) | ZeroReverseLocalPort(at: nat) | BadReverseSourceIp(at: nat)

  datatype Warning = EmptyBindIp | EmptySourceIp(at: nat) | NullSourceIp(at: nat)
                   | EmptyReverseSourceIp(at: nat) | NullReverseSourceIp(at: nat)

  function AddIf<T>(s: seq<T>, condition: bool, x: T): seq<T> {
    if condition then s + [x] else s
  }

  /** Errors, warnings and ports seen after some sections. */
  datatype Tally = Tally(errors: seq<Issue>, warnings: seq<Warning>, seen: set<nat>)

  const NOTHING := Tally([], [], {})

  function TallySource(t: Tally, source: Source, bad: Issue, blank: Warning, nullWord: Warning): Tally {
    match source
    case Blank => t.(warnings := t.warnings + [blank])
    case NullWord => t.(warnings := t.warnings + [nullWord])
    case Garbage => t.(errors := t.errors + [bad])
    case _ => t
  }

  /** One forward proxy; a part that does not parse ends its checks. */
  function TallyProxy(t: Tally, f: Facts, at: nat): Tally {
    if f.own.None? then t.(errors := t.errors + [BadLocal(at)])
    else
      var e1 := AddIf(t.errors, f.own.value == 0, ZeroLocalPort(at));
      if f.target.None? then t.(errors := e1 + [BadRemote(at)])
      else
        var e2 := AddIf(e1, f.target.value == 0, ZeroRemotePort(at));
        var e3 := AddIf(e2, f.own.value in t.seen, DuplicateLocalPort(f.own.value, at));
        TallySource(Tally(e3, t.warnings, t.seen + {f.own.value}), f.source,
                    BadSourceIp(at), EmptySourceIp(at), NullSourceIp(at))
  }

  /** One reverse proxy; here duplicates are checked before the second part. */
  function TallyReverse(t: Tally, f: Facts, at: nat): Tally {
    if f.own.None? then t.(errors := t.errors + [BadServer(at)])
    else
      var e1 := AddIf(t.errors, f.own.value == 0, ZeroServerPort(at));
      var e2 := AddIf(e1, f.own.value in t.seen, DuplicateServerPort(f.own.value, at));
      var seen := t.seen + {f.own.value};
      if f.target.None? then Tally(e2 + [BadReverseLocal(at)], t.warnings, seen)
      else
        var e3 := AddIf(e2, f.target.value == 0, ZeroReverseLocalPort(at));
        TallySource(Tally(e3, t.warnings, seen), f.source,
                    BadReverseSourceIp(at), EmptyReverseSourceIp(at), NullReverseSourceIp(at))
  }

  function TallyAll(one: (Tally, Facts, nat) -> Tally, start: Tally, fs: seq<Facts>): Tally {
    if fs == [] then start
    else one(TallyAll(one, start, fs[..|fs| - 1]), fs[|fs| - 1], |fs| - 1)
  }

  /** The checks that come first, given what was read off `bindIp`. */
  function TallyBind(b: Bind, c: Contents): Tally {
    var e1 := AddIf([], c.reverseProxies != [] && !c.hasReverseServer && !c.hasReverseClient, NoReverseEndpoint);
    Tally(AddIf(e1, b == BadBind, BadBindIp), AddIf([], b == BlankBind, EmptyBindIp), {})
  }

  /** Everything found, given what was read off `bindIp`. */
  function FindingsWith(b: Bind, isIp: string -> bool, c: Contents): Tally {
    var t := TallyAll(TallyProxy, TallyBind(b, c), AllProxyFacts(isIp, c.proxies));
    TallyAll(TallyReverse, t.(seen := {}), AllReverseFacts(isIp, c.reverseProxies))
  }

  function Findings(isIp: string -> bool, c: Contents): Tally {
    FindingsWith(BindOf(isIp, c.bindIp), isIp, c)
  }

  // Repairs

  const LOOPBACK := "127.0.0.1"

  function RepairBind(b: Bind, bindIp: Option<string>): Option<string> {
    match b
    case BlankBind => Some(LOOPBACK)
    case GoodBind(trimmed) => Some(trimmed)
    case _ => bindIp
  }

  function RepairedBindIp(isIp: string -> bool, bindIp: Option<string>): Option<string> {
    RepairBind(BindOf(isIp, bindIp), bindIp)
  }

  function Repair(f: Facts, p: ProxySection): ProxySection {
    if f.own.Some? && f.target.Some? && (f.source == Blank || f.source == NullWord) then p.(sourceIp := None) else p
  }

  function RepairedProxy(isIp: string -> bool, p: ProxySection): ProxySection {
    Repair(ProxyFacts(isIp, p), p)
  }

  function RepairedProxies(isIp: string -> bool, ps: seq<ProxySection>): (qs: seq<ProxySection>)
    ensures |qs| == |ps|
  {
    seq(|ps|, i requires 0 <= i < |ps| => RepairedProxy(isIp, ps[i]))
  }

  function Repaired(isIp: string -> bool, c: Contents): Contents {
    c.(bindIp := RepairedBindIp(isIp, c.bindIp), proxies := RepairedProxies(isIp, c.proxies))
  }

  method ClassifySource(isIp: string -> bool, sourceIp: Option<string>) returns (s: Source)
    ensures s == SourceOf(isIp, sourceIp)
  {
    if sourceIp.None? {
      return Absent;
    }
    var trimmed := Trim(sourceIp.value);
    if trimmed == "" {
      return Blank;
    }
    if EqIgnoreCase(trimmed, "null") {
      return NullWord;
    }
    return if isIp(trimmed) then Literal else Garbage;
  }

  method ClassifyBind(isIp: string -> bool, bindIp: Option<string>) returns (b: Bind)
    ensures b == BindOf(isIp, bindIp)
  {
    if bindIp.None? {
      return NoBind;
    }
    var trimmed := Trim(bindIp.value);
    if trimmed == "" {
      return BlankBind;
    }
    return if isIp(trimmed) then GoodBind(trimmed) else BadBind;
  }

  method ReadProxy(isIp: string -> bool, p: ProxySection) returns (f: Facts)
    ensures f == ProxyFacts(isIp, p)
  {
    var source := ClassifySource(isIp, p.sourceIp);
    return Facts(LocalPort(p.local), LastPort(p.remote), source);
  }

  method ReadReverseProxy(isIp: string -> bool, p: ReverseProxySection) returns (f: Facts)
    ensures f == ReverseFacts(isIp, p)
  {
    var source := ClassifySource(isIp, p.sourceIp);
    return Facts(LastPort(p.server), LastPort(p.local), source);
  }

  class ConfigFile {
    var bindIp: Option<string>
    var proxies: seq<ProxySection>
    var reverseProxies: seq<ReverseProxySection>
    var hasReverseServer: bool
    var hasReverseClient: bool
    // working state of one validation
    var errors: seq<Issue>
    var warnings: seq<Warning>
    var seen: set<nat>

    constructor (c: Contents)
      ensures View() == c
    {
      bindIp, proxies, reverseProxies := c.bindIp, c.proxies, c.reverseProxies;
      hasReverseServer, hasReverseClient := c.hasReverseServer, c.hasReverseClient;
      errors, warnings, seen := [], [], {};
    }

    function View(): Contents
      reads this
    {
      Contents(bindIp, proxies, reverseProxies, hasReverseServer, hasReverseClient)
    }

    function Found(): Tally
      reads this
    {
      Tally(errors, warnings, seen)
    }

    method Validate(isIp: string -> bool) returns (r: Result<seq<Warning>, seq<Issue>>)
      modifies this
      ensures View() == Repaired(isIp, old(View()))
      ensures var t := Findings(isIp, old(View()));
        r == if t.errors == [] then Ok(t.warnings) else Err(t.errors)
    {
      var b := ClassifyBind(isIp, bindIp);
      RunChecks(b, isIp);
      if errors != [] {
        return Err(errors);
      }
      return Ok(warnings);
    }

    method RunChecks(b: Bind, isIp: string -> bool)
      modifies this`bindIp, this`proxies, this`errors, this`warnings, this`seen
      ensures bindIp == RepairBind(b, old(bindIp)) && proxies == RepairedProxies(isIp, old(proxies))
      ensures Found() == FindingsWith(b, isIp, old(View()))
    {
      ghost var c := View();
      errors, warnings, seen := [], [], {};
      assert View() == c && Found() == NOTHING;
      ValidateBind(b);
      ghost var t1 := TallyBind(b, c);
      assert Found() == t1 && proxies == c.proxies;
      ValidateProxies(isIp);
      ghost var t2 := TallyAll(TallyProxy, t1, AllProxyFacts(isIp, c.proxies));
      assert Found() == t2;
      seen := {};
      assert Found() == t2.(seen := {}) && reverseProxies == c.reverseProxies;
      ValidateReverseProxies(isIp);
    }

    method ValidateBind(b: Bind)
      requires Found() == NOTHING
      modifies this`bindIp, this`errors, this`warnings
      ensures bindIp == RepairBind(b, old(bindIp))
      ensures Found() == TallyBind(b, old(View()))
    {
      if reverseProxies != [] {
        if !hasReverseServer && !hasReverseClient {
          errors := errors + [NoReverseEndpoint];
        }
      }
      match b
      case BlankBind =>
        warnings := warnings + [EmptyBindIp];
        bindIp := Some(LOOPBACK);
      case BadBind =>
        errors := errors + [BadBindIp];
      case GoodBind(trimmed) =>
        if Some(trimmed) != bindIp {
          bindIp := Some(trimmed);
        }
      case NoBind =>
    }

    method ValidateProxies(isIp: string -> bool)
      modifies this`proxies, this`errors, this`warnings, this`seen
      ensures proxies == RepairedProxies(isIp, old(proxies))
      ensures Found() == TallyAll(TallyProxy, old(Found()), AllProxyFacts(isIp, old(proxies)))
    {
      ghost var ps, start := proxies, Found();
      ghost var repaired, fs := RepairedProxies(isIp, ps), AllProxyFacts(isIp, ps);
      var i := 0;
      while i < |proxies|
        invariant 0 <= i <= |ps| == |proxies|
        invariant proxies == HalfRepaired(repaired, ps, i)
        invariant Found() == TallyAll(TallyProxy, start, fs[..i])
      {
        RepairNext(repaired, ps, i);
        var f := ReadProxy(isIp, proxies[i]);
        ValidateProxy(f, i);
        TallyNext(TallyProxy, start, fs, i);
        i := i + 1;
      }
      assert fs[..i] == fs && HalfRepaired(repaired, ps, i) == repaired;
    }

    method ValidateReverseProxies(isIp: string -> bool)
      modifies this`errors, this`warnings, this`seen
      ensures Found() == TallyAll(TallyReverse, old(Found()), AllReverseFacts(isIp, reverseProxies))
    {
      ghost var start, fs := Found(), AllReverseFacts(isIp, reverseProxies);
      var i := 0;
      while i < |reverseProxies|
        invariant 0 <= i <= |reverseProxies|
        invariant Found() == TallyAll(TallyReverse, start, fs[..i])
      {
        var f := ReadReverseProxy(isIp, reverseProxies[i]);
        ValidateReverse(f, i);
        TallyNext(TallyReverse, start, fs, i);
        i := i + 1;
      }
      assert fs[..i] == fs;
    }

    /** The body of the loop over the forward proxies, given what was read off
        the section. */
    method ValidateProxy(f: Facts, at: nat)
      requires at < |proxies|
      modifies this`proxies, this`errors, this`warnings, this`seen
      ensures proxies == old(proxies)[at := Repair(f, old(proxies)[at])]
      ensures Found() == TallyProxy(old(Found()), f, at)
    {
      if f.own.None? {
        errors := errors + [BadLocal(at)];
        return;
      }
      if f.own.value == 0 {
        errors := errors + [ZeroLocalPort(at)];
      }
      if f.target.None? {
        errors := errors + [BadRemote(at)];
        return;
      }
      if f.target.value == 0 {
        errors := errors + [ZeroRemotePort(at)];
      }
      if f.own.value in seen {
        errors := errors + [DuplicateLocalPort(f.own.value, at)];
      }
      seen := seen + {f.own.value};
      match f.source
      case Blank =>
        warnings := warnings + [EmptySourceIp(at)];
        proxies := proxies[at := proxies[at].(sourceIp := None)];
      case NullWord =>
        warnings := warnings + [NullSourceIp(at)];
        proxies := proxies[at := proxies[at].(sourceIp := None)];
      case Garbage =>
        errors := errors + [BadSourceIp(at)];
      case _ =>
    }

    /** The body of the loop over the reverse proxies, which repairs nothing. */
    method ValidateReverse(f: Facts, at: nat)
      requires at < |reverseProxies|
      modifies this`errors, this`warnings, this`seen
      ensures Found() == TallyReverse(old(Found()), f, at)
    {
      if f.own.None? {
        errors := errors + [BadServer(at)];
        return;
      }
      if f.own.value == 0 {
        errors := errors + [ZeroServerPort(at)];
      }
      if f.own.value in seen {
        errors := errors + [DuplicateServerPort(f.own.value, at)];
      }
      seen := seen + {f.own.value};
      if f.target.None? {
        errors := errors + [BadReverseLocal(at)];
        return;
      }
      if f.target.value == 0 {
        errors := errors + [ZeroReverseLocalPort(at)];
      }
      match f.source
      case Blank => warnings := warnings + [EmptyReverseSourceIp(at)];
      case NullWord => warnings := warnings + [NullReverseSourceIp(at)];
      case Garbage => errors := errors + [BadReverseSourceIp(at)];
      case _ =>
    }
  }

  ghost function HalfRepaired(repaired: seq<ProxySection>, ps: seq<ProxySection>, i: nat): (s: seq<ProxySection>)
    requires i <= |ps| == |repaired|
    ensures |s| == |ps|
  {
    repaired[..i] + ps[i..]
  }

  lemma RepairNext(repaired: seq<ProxySection>, ps: seq<ProxySection>, i: nat)
    requires i < |ps| == |repaired|
    ensures var s := HalfRepaired(repaired, ps, i);
      s[i] == ps[i] && s[i := repaired[i]] == HalfRepaired(repaired, ps, i + 1)
  {}

  lemma TallyNext(one: (Tally, Facts, nat) -> Tally, start: Tally, fs: seq<Facts>, i: nat)
    requires i < |fs|
    ensures TallyAll(one, start, fs[..i + 1]) == one(TallyAll(one, start, fs[..i]), fs[i], i)
  {
    assert fs[..i + 1][..i] == fs[..i];
  }

  // Validation is exact

  /** Over any sections whose single-section tally is `one`: no new error exactly
      when they are fine, and then the ports seen are theirs. */
  ghost predicate ExactTally(one: (Tally, Facts, nat) -> Tally) {
    forall t: Tally, f: Facts, at: nat {:trigger one(t, f, at)} ::
      && t.errors <= one(t, f, at).errors
      && (one(t, f, at).errors == t.errors) ==
           (Usable(f.own) && Usable(f.target) && f.source != Garbage && f.own.value !in t.seen)
      && (f.own.Some? && f.target.Some? ==> one(t, f, at).seen == t.seen + {f.own.value})
  }

  lemma TalliesExact()
    ensures ExactTally(TallyProxy) && ExactTally(TallyReverse)
  {}

  lemma {:induction false} FineExactly(one: (Tally, Facts, nat) -> Tally, start: Tally, fs: seq<Facts>)
    requires ExactTally(one) && start.seen == {}
    ensures var t := TallyAll(one, start, fs);
      && start.errors <= t.errors
      && (t.errors == start.errors <==> Fine(fs))
      && (Fine(fs) ==> forall port :: port in t.seen <==> exists i :: 0 <= i < |fs| && fs[i].own == Some(port))
  {
    if fs != [] {
      var n := |fs| - 1;
      FineExactly(one, start, fs[..n]);
      var t, u := TallyAll(one, start, fs[..n]), TallyAll(one, start, fs);
      assert u == one(t, fs[n], n);
      assert Fine(fs) ==> Fine(fs[..n]);
      if Fine(fs[..n]) {
        assert (exists i :: 0 <= i < n && fs[..n][i].own == fs[n].own) <==> !(forall i :: 0 <= i < n ==> fs[i].own != fs[n].own);
      }
    }
  }

  /** Accepted means well-formed, and nothing else. */
  lemma ValidationExact(isIp: string -> bool, c: Contents)
    ensures Findings(isIp, c).errors == [] <==> WellFormed(isIp, c)
  {
    TalliesExact();
    FineExactly(TallyProxy, TallyBind(BindOf(isIp, c.bindIp), c), AllProxyFacts(isIp, c.proxies));
    var t := TallyAll(TallyProxy, TallyBind(BindOf(isIp, c.bindIp), c), AllProxyFacts(isIp, c.proxies));
    FineExactly(TallyReverse, t.(seen := {}), AllReverseFacts(isIp, c.reverseProxies));
  }

  lemma RepairKeepsFacts(isIp: string -> bool, p: ProxySection)
    ensures var f, g := ProxyFacts(isIp, p), ProxyFacts(isIp, RepairedProxy(isIp, p));
      && g.own == f.own && g.target == f.target && (f.source != Garbage ==> g.source != Garbage)
    ensures RepairedProxy(isIp, RepairedProxy(isIp, p)) == RepairedProxy(isIp, p)
  {}

  lemma TrimmedBinds(isIp: string -> bool, trimmed: string)
    requires Trim(trimmed) == trimmed && trimmed != "" && isIp(trimmed)
    ensures BindOf(isIp, Some(trimmed)) == GoodBind(trimmed)
  {}

  lemma LoopbackBinds(isIp: string -> bool)
    requires isIp(LOOPBACK)
    ensures BindOf(isIp, Some(LOOPBACK)) == GoodBind(LOOPBACK)
  {
    TrimKeeps(LOOPBACK);
    TrimmedBinds(isIp, LOOPBACK);
  }

  lemma GoodBindIsTrimmed(isIp: string -> bool, bindIp: Option<string>)
    requires BindOf(isIp, bindIp).GoodBind?
    ensures var t := BindOf(isIp, bindIp).trimmed; BindOf(isIp, Some(t)) == GoodBind(t)
  {
    TrimTwice(bindIp.value);
    TrimmedBinds(isIp, Trim(bindIp.value));
  }

  lemma RepairKeepsBind(isIp: string -> bool, bindIp: Option<string>)
    requires BindOf(isIp, bindIp) != BadBind && isIp(LOOPBACK)
    ensures BindOf(isIp, RepairedBindIp(isIp, bindIp)) != BadBind
    ensures RepairedBindIp(isIp, RepairedBindIp(isIp, bindIp)) == RepairedBindIp(isIp, bindIp)
  {
    match BindOf(isIp, bindIp)
    case BlankBind => LoopbackBinds(isIp);
    case GoodBind(_) => GoodBindIsTrimmed(isIp, bindIp);
    case _ =>
  }

  /** Validating an accepted configuration again accepts it and changes nothing. */
  lemma ValidationStable(isIp: string -> bool, c: Contents)
    requires WellFormed(isIp, c) && isIp(LOOPBACK)
    ensures WellFormed(isIp, Repaired(isIp, c))
    ensures Repaired(isIp, Repaired(isIp, c)) == Repaired(isIp, c)
  {
    var d := Repaired(isIp, c);
    RepairKeepsBind(isIp, c.bindIp);
    forall i | 0 <= i < |c.proxies|
      ensures var f, g := AllProxyFacts(isIp, c.proxies)[i], AllProxyFacts(isIp, d.proxies)[i];
        && g.own == f.own && g.target == f.target && (f.source != Garbage ==> g.source != Garbage)
      ensures RepairedProxy(isIp, d.proxies[i]) == d.proxies[i]
    {
      RepairKeepsFacts(isIp, c.proxies[i]);
    }
    assert Repaired(isIp, d).proxies == d.proxies;
  }
}
