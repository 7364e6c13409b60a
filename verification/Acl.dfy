/**
 * Packet filters (`acl.go`): the direct reading of a rule list by `ACLAllows` and its
 * compilation into firewall rules, before `Optimize` merges them.
 */
module Acl {
  import opened Addresses
  import opened Bits
  import opened AddressRanges
  import Ordering
  import opened Options

  type Port = x: int | 0 <= x < 0x1_0000

  /** A source or destination string after parsing. */
  datatype Selector =
    | Star
    | Unparsable
    | Cidr(prefix: Prefix)
    | Range(first: Addr, last: Addr)
    | Single(addr: Addr)
  {
    predicate Valid() {
      match this
      case Star => true
      case Unparsable => true
      case Cidr(prefix) => prefix.Valid()
      case Range(first, last) => first.Valid() && last.Valid()
      case Single(addr) => addr.Valid()
    }
  }

  datatype Destination = Destination(ip: Selector, bits: Option<int>, first: Port, last: Port)

  datatype Rule = Rule(
    sources: seq<Selector>, sourceBits: seq<int>, destinations: seq<Destination>, protocols: seq<int>)
  {
    predicate Valid() {
      && (forall i :: 0 <= i < |sources| ==> sources[i].Valid())
      && (forall j :: 0 <= j < |destinations| ==> destinations[j].ip.Valid())
    }

    function SourceBits(i: nat): int {
      if i < |sourceBits| then sourceBits[i] else -1
    }
  }

  /** What a packet is judged by. */
  datatype Flow = Flow(source: Addr, destination: Addr, protocol: int, port: Port)

  // ----- The direct reading -----

  function UnmapPrefix(p: Prefix): (r: Prefix)
    requires p.Valid()
    ensures r.Valid()
  {
    if !p.addr.Is4In6() || p.bits < 96 then p
    else
      UnmapValid(p.addr);
      Prefix(p.addr.Unmap(), p.bits - 96).Masked()
  }

  /** An unmapped prefix holds the unmapped forms of exactly the mapped addresses the prefix holds. */
  lemma UnmapPrefixKeeps(p: Prefix, a: Addr)
    requires p.Valid() && p.addr.Is4In6() && p.bits >= 96 && a.Valid() && a.Is4In6()
    ensures UnmapPrefix(p).Contains(a.Unmap()) <==> p.Contains(a)
  {
    hide Mask, Pow2;
    var h := p.HostBits();
    MappedMask(p.addr, h);
    MappedMask(a, h);
    UnmapValid(p.addr);
    UnmapValid(a);
    MaskingKeepsMembers(Prefix(p.addr.Unmap(), p.bits - 96), a.Unmap());
  }

  lemma MappedMask(a: Addr, h: nat)
    requires a.Is4In6() && h <= 32
    ensures Mask(a.value, h) == 0xffff_0000_0000 + Mask(a.Unmap().value, h)
  {
    hide Mask, ShiftUp;
    MappedBits();
    MaskShifted(0xffff, 32, a.value % 0x1_0000_0000, h);
  }

  /** The upper bits of a mapped address. */
  lemma MappedBits()
    ensures ShiftUp(0xffff, 32) == 0xffff_0000_0000
  {
    assert ShiftUp(0xffff, 8) == 0xff_ff00;
    assert ShiftUp(0xffff, 16) == 0xffff_0000;
    assert ShiftUp(0xffff, 24) == 0xff_ff00_0000;
  }

  function UnmapBits(a: Addr, bits: int): int {
    if a.Is4In6() && bits >= 96 then bits - 96 else bits
  }

  predicate MatchesIP(ip: Selector, bits: int, query: Addr)
    requires ip.Valid() && query.WellFormed()
  {
    var address := query.Unmap();
    match ip
    case Star => true
    case Unparsable => false
    case Cidr(prefix) => UnmapPrefix(prefix).Contains(address)
    case Range(first, last) =>
      var start, end := first.Unmap(), last.Unmap();
      && start.width == address.width && end.width == address.width
      && start.Compare(address) <= 0 && address.Compare(end) <= 0
    case Single(addr) =>
      if bits < 0 then addr.Unmap() == address.Unmap()
      else
        UnmapValid(addr);
        var base, short := addr.Unmap(), UnmapBits(addr, bits);
        short <= base.width && Prefix(base, short).Contains(address)
  }

  predicate MatchesSource(rule: Rule, source: Addr)
    requires rule.Valid() && source.WellFormed()
  {
    exists i :: 0 <= i < |rule.sources| && MatchesIP(rule.sources[i], rule.SourceBits(i), source)
  }

  predicate MatchesProtocol(rule: Rule, protocol: int) {
    if rule.protocols == [] then protocol in [1, 6, 17, 58] else protocol in rule.protocols
  }

  predicate MatchesDestination(d: Destination, flow: Flow)
    requires d.ip.Valid() && flow.destination.WellFormed()
  {
    MatchesIP(d.ip, BitsOr(d.bits), flow.destination) && d.first <= flow.port <= d.last
  }

  function BitsOr(bits: Option<int>): int {
    match bits
    case Some(value) => value
    case None => -1
  }

  predicate MatchesAnyDestination(ds: seq<Destination>, flow: Flow)
    requires forall j :: 0 <= j < |ds| ==> ds[j].ip.Valid()
    requires flow.destination.WellFormed()
  {
    exists j :: 0 <= j < |ds| && MatchesDestination(ds[j], flow)
  }

  predicate RuleAllows(rule: Rule, flow: Flow)
    requires rule.Valid() && flow.source.WellFormed() && flow.destination.WellFormed()
  {
    && MatchesSource(rule, flow.source)
    && MatchesProtocol(rule, flow.protocol)
    && MatchesAnyDestination(rule.destinations, flow)
  }

  predicate Allows(rules: seq<Rule>, flow: Flow)
    requires forall i :: 0 <= i < |rules| ==> rules[i].Valid()
    requires flow.source.WellFormed() && flow.destination.WellFormed()
  {
    exists i :: 0 <= i < |rules| && RuleAllows(rules[i], flow)
  }

  // ----- What a selector selects -----

  /** The IPv4 address `a` written as an IPv6 address. */
  function Mapped(a: Addr): Addr {
    Addr(128, 0xffff_0000_0000 + a.value)
  }

  /** A prefix of mapped addresses holds IPv4 addresses; any other prefix holds the addresses it says. */
  predicate InPrefix(p: Prefix, a: Addr)
    requires p.Valid()
  {
    if Plain(p.addr) != p.addr && p.bits >= 96 then a.width == 32 && p.Contains(Mapped(a)) else p.Contains(a)
  }

  /**
   * Which plain addresses a selector selects. A single address without a bit count, or with a
   * negative one, selects itself. With a bit count it selects a prefix; the count of a mapped
   * address is one of IPv6 from 96 on and one of IPv4 below, and a count that is too large selects nothing.
   */
  predicate Selects(ip: Selector, bits: Option<int>, a: Addr)
    requires ip.Valid()
  {
    match ip
    case Star => true
    case Unparsable => false
    case Cidr(prefix) => InPrefix(prefix, a)
    case Range(first, last) =>
      Plain(first).width == a.width == Plain(last).width && Plain(first).value <= a.value <= Plain(last).value
    case Single(addr) =>
      if bits.None? || bits.value < 0 then a == Plain(addr)
      else
        var whole := Plain(addr) == addr || bits.value >= 96;
        var base := if whole then addr else Plain(addr);
        PlainValid(addr);
        bits.value <= base.width && InPrefix(Prefix(base, bits.value), a)
  }

  lemma PlainValid(a: Addr)
    requires a.WellFormed()
    ensures Plain(a) == a.Unmap() && Plain(a).WellFormed() && (a.Valid() ==> Plain(a).Valid())
    ensures Plain(a) != a <==> a.Is4In6()
  {
    UnmapValid(a);
  }

  lemma PrefixMeaning(p: Prefix, a: Addr)
    requires p.Valid() && a.WellFormed() && Plain(a) == a
    ensures UnmapPrefix(p).Contains(a) <==> InPrefix(p, a)
  {
    hide Mask, Pow2;
    PlainValid(p.addr);
    PlainValid(a);
    if p.addr.Is4In6() && p.bits >= 96 && a.width == 32 {
      MappedIsValid(a);
      UnmapPrefixKeeps(p, Mapped(a));
    }
  }

  lemma MappedIsValid(a: Addr)
    requires a.Valid() && a.width == 32
    ensures Mapped(a).Valid() && Mapped(a).Is4In6() && Mapped(a).Unmap() == a
  {
    hide Pow2;
    Pow32();
    Pow48();
    Pow2Monotone(48, 128);
  }

  lemma Pow48()
    ensures Pow2(48) == 0x1_0000_0000_0000
  {
    Pow32();
    assert Pow2(40) == 0x100_0000_0000;
  }

  /** With a bit count, a single address is matched as the prefix it stands for. */
  lemma SingleMeaning(addr: Addr, bits: int, a: Addr)
    requires addr.Valid() && bits >= 0 && a.WellFormed() && Plain(a) == a
    ensures MatchesIP(Single(addr), bits, a) <==> Selects(Single(addr), Some(bits), a)
  {
    hide Mask, Pow2;
    PlainValid(addr);
    PlainValid(a);
    if addr.Is4In6() && 96 <= bits <= 128 {
      PrefixMeaning(Prefix(addr, bits), a);
      MaskingKeepsMembers(Prefix(addr.Unmap(), bits - 96), a);
    }
  }

  /** The reading of `matchesIP` is the selection, for every selector, bit count and address. */
  lemma MatchesIPMeaning(ip: Selector, bits: int, query: Addr)
    requires ip.Valid() && query.WellFormed()
    ensures MatchesIP(ip, bits, query) <==> Selects(ip, Some(bits), Plain(query))
    ensures bits < 0 ==> (MatchesIP(ip, bits, query) <==> Selects(ip, None, Plain(query)))
  {
    hide Mask, Pow2, UnmapPrefix, InPrefix;
    PlainValid(query);
    var a := Plain(query);
    PlainValid(a);
    match ip
    case Cidr(prefix) => PrefixMeaning(prefix, a);
    case Range(first, last) =>
      PlainValid(first);
      PlainValid(last);
    case Single(addr) =>
      PlainValid(addr);
      if bits >= 0 {
        SingleMeaning(addr, bits, a);
        SameReading(addr, bits, query);
      }
    case _ =>
  }

  lemma SameReading(addr: Addr, bits: int, query: Addr)
    requires addr.Valid() && query.WellFormed() && Plain(query).WellFormed() && bits >= 0
    ensures MatchesIP(Single(addr), bits, query) <==> MatchesIP(Single(addr), bits, Plain(query))
  {
    hide Mask, Pow2;
    PlainValid(query);
    UnmapValid(query);
  }

  predicate SourceSelects(rule: Rule, i: nat, flow: Flow)
    requires rule.Valid() && i < |rule.sources|
  {
    Selects(rule.sources[i], if i < |rule.sourceBits| then Some(rule.sourceBits[i]) else None, Plain(flow.source))
  }

  predicate DestinationSelects(rule: Rule, j: nat, flow: Flow)
    requires rule.Valid() && j < |rule.destinations|
  {
    var d := rule.destinations[j];
    Selects(d.ip, d.bits, Plain(flow.destination)) && d.first <= flow.port <= d.last
  }

  /** One rule permits a flow: some source, some destination with its ports, and the protocol. */
  ghost predicate RulePermits(rule: Rule, flow: Flow)
    requires rule.Valid()
  {
    && (exists i :: 0 <= i < |rule.sources| && SourceSelects(rule, i, flow))
    && (exists j :: 0 <= j < |rule.destinations| && DestinationSelects(rule, j, flow))
    && if rule.protocols == [] then flow.protocol in {1, 6, 17, 58} else flow.protocol in rule.protocols
  }

  /** What a packet filter means. */
  ghost predicate Permits(rules: seq<Rule>, flow: Flow)
    requires forall i :: 0 <= i < |rules| ==> rules[i].Valid()
  {
    exists i :: 0 <= i < |rules| && RulePermits(rules[i], flow)
  }

  lemma SourceMeaning(rule: Rule, i: nat, flow: Flow)
    requires rule.Valid() && i < |rule.sources| && flow.source.WellFormed()
    ensures MatchesIP(rule.sources[i], rule.SourceBits(i), flow.source) <==> SourceSelects(rule, i, flow)
  {
    hide MatchesIP, Selects, Plain;
    MatchesIPMeaning(rule.sources[i], rule.SourceBits(i), flow.source);
  }

  lemma DestinationMeaning(rule: Rule, j: nat, flow: Flow)
    requires rule.Valid() && j < |rule.destinations| && flow.destination.WellFormed()
    ensures MatchesDestination(rule.destinations[j], flow) <==> DestinationSelects(rule, j, flow)
  {
    hide MatchesIP, Selects, Plain;
    MatchesIPMeaning(rule.destinations[j].ip, BitsOr(rule.destinations[j].bits), flow.destination);
  }

  lemma RuleMeaning(rule: Rule, flow: Flow)
    requires rule.Valid() && flow.source.WellFormed() && flow.destination.WellFormed()
    ensures RuleAllows(rule, flow) <==> RulePermits(rule, flow)
  {
    hide MatchesIP, MatchesDestination, SourceSelects, DestinationSelects;
    forall i | 0 <= i < |rule.sources|
      ensures MatchesIP(rule.sources[i], rule.SourceBits(i), flow.source) <==> SourceSelects(rule, i, flow)
    {
      SourceMeaning(rule, i, flow);
    }
    forall j | 0 <= j < |rule.destinations|
      ensures MatchesDestination(rule.destinations[j], flow) <==> DestinationSelects(rule, j, flow)
    {
      DestinationMeaning(rule, j, flow);
    }
  }

  /** The direct reading of a packet filter is what the filter means. */
  lemma AllowsMeaning(rules: seq<Rule>, flow: Flow)
    requires forall i :: 0 <= i < |rules| ==> rules[i].Valid()
    requires flow.source.WellFormed() && flow.destination.WellFormed()
    ensures Allows(rules, flow) <==> Permits(rules, flow)
  {
    hide RuleAllows, RulePermits;
    forall i | 0 <= i < |rules| ensures RuleAllows(rules[i], flow) <==> RulePermits(rules[i], flow) {
      RuleMeaning(rules[i], flow);
    }
  }

  // ----- The loops of the direct reading -----

  method SourceMatches(rule: Rule, source: Addr) returns (found: bool)
    requires rule.Valid() && source.WellFormed()
    ensures found <==> MatchesSource(rule, source)
  {
    for index := 0 to |rule.sources|
      invariant forall i :: 0 <= i < index ==> !MatchesIP(rule.sources[i], rule.SourceBits(i), source)
    {
      var bits := -1;
      if index < |rule.sourceBits| {
        bits := rule.sourceBits[index];
      }
      if MatchesIP(rule.sources[index], bits, source) {
        return true;
      }
    }
    found := false;
  }

  method ACLAllows(rules: seq<Rule>, flow: Flow) returns (allowed: bool)
    requires forall i :: 0 <= i < |rules| ==> rules[i].Valid()
    requires flow.source.WellFormed() && flow.destination.WellFormed()
    ensures allowed <==> Allows(rules, flow)
    ensures allowed <==> Permits(rules, flow)
  {
    hide Permits, Allows;
    AllowsMeaning(rules, flow);
    allowed := SomeRuleAllows(rules, flow);
  }

  method SomeRuleAllows(rules: seq<Rule>, flow: Flow) returns (allowed: bool)
    requires forall i :: 0 <= i < |rules| ==> rules[i].Valid()
    requires flow.source.WellFormed() && flow.destination.WellFormed()
    ensures allowed <==> Allows(rules, flow)
  {
    hide MatchesIP, MatchesSource, MatchesProtocol, MatchesDestination;
    for index := 0 to |rules|
      invariant forall i :: 0 <= i < index ==> !RuleAllows(rules[i], flow)
    {
      var rule := rules[index];
      var source := SourceMatches(rule, flow.source);
      if source && MatchesProtocol(rule, flow.protocol) {
        for target := 0 to |rule.destinations|
          invariant forall j :: 0 <= j < target ==> !MatchesDestination(rule.destinations[j], flow)
        {
          if MatchesDestination(rule.destinations[target], flow) {
            assert RuleAllows(rules[index], flow);
            return true;
          }
        }
      }
    }
    allowed := false;
  }

  // ----- The firewall and what its rules admit -----

  datatype Host = AnyHost | OneHost(addr: Addr) | HostPrefix(prefix: Prefix) {
    predicate Valid() {
      HostPrefix? ==> prefix.Valid()
    }

    predicate Admits(a: Addr)
      requires Valid()
    {
      match this
      case AnyHost => true
      case OneHost(addr) => a == addr
      case HostPrefix(prefix) => prefix.Contains(a)
    }
  }

  datatype Network = Tcp | Udp | Ip(protocol: int) {
    function Protocol(): int {
      match this
      case Tcp => 6
      case Udp => 17
      case Ip(protocol) => protocol
    }
  }

  datatype PortRange = PortRange(first: Port, last: Port)

  datatype FirewallRule = FirewallRule(
    network: Network, hosts: seq<Host>, localHosts: seq<Host>, ports: seq<Port>, portRanges: seq<PortRange>)

  type Hosts = hs: seq<Host> | forall i :: 0 <= i < |hs| ==> hs[i].Valid()

  predicate SomeAdmits(hosts: Hosts, a: Addr) {
    exists i :: 0 <= i < |hosts| && hosts[i].Admits(a)
  }

  /** No host selector at all puts no restriction on the host, and likewise for ports. */
  predicate HostsAdmit(hosts: Hosts, a: Addr) {
    hosts == [] || SomeAdmits(hosts, a)
  }

  predicate PortsAdmit(ports: seq<Port>, ranges: seq<PortRange>, port: Port) {
    || (ports == [] && ranges == [])
    || port in ports
    || (exists i :: 0 <= i < |ranges| && ranges[i].first <= port <= ranges[i].last)
  }

  predicate ValidRule(rule: FirewallRule) {
    && (forall i :: 0 <= i < |rule.hosts| ==> rule.hosts[i].Valid())
    && (forall i :: 0 <= i < |rule.localHosts| ==> rule.localHosts[i].Valid())
  }

  type Config = rs: seq<FirewallRule> | forall i :: 0 <= i < |rs| ==> ValidRule(rs[i])

  predicate RuleAdmits(rule: FirewallRule, flow: Flow)
    requires ValidRule(rule)
  {
    && rule.network.Protocol() == flow.protocol
    && HostsAdmit(rule.hosts, flow.source.Unmap())
    && HostsAdmit(rule.localHosts, flow.destination.Unmap())
    && PortsAdmit(rule.ports, rule.portRanges, flow.port)
  }

  predicate Admits(config: Config, flow: Flow) {
    exists i :: 0 <= i < |config| && RuleAdmits(config[i], flow)
  }

  // ----- The compiler -----

  function PrefixHosts(ps: seq<Prefix>): (hosts: seq<Host>)
    ensures |hosts| == |ps|
    ensures forall i :: 0 <= i < |ps| ==> hosts[i] == HostPrefix(ps[i])
  {
    seq(|ps|, i requires 0 <= i < |ps| => HostPrefix(ps[i]))
  }

  /** The compiled form of one selector. */
  function HostSelectors(ip: Selector, bits: int): (hosts: Hosts)
    requires ip.Valid()
  {
    match ip
    case Star => [AnyHost]
    case Unparsable => []
    case Cidr(prefix) => [HostPrefix(UnmapPrefix(prefix).Masked())]
    case Range(first, last) =>
      var start, end := first.Unmap(), last.Unmap();
      UnmapValid(first);
      UnmapValid(last);
      if start.width != end.width || start.Compare(end) > 0 then []
      else
        CoverPrefixesExact(start, end);
        PrefixHosts(CoverPrefixes(start, end))
    case Single(addr) =>
      UnmapValid(addr);
      var base, short := addr.Unmap(), UnmapBits(addr, bits);
      if short < 0 then [OneHost(base)]
      else if short > base.width then []
      else [HostPrefix(Prefix(base, short).Masked())]
  }

  method FirewallHostSelectors(ip: Selector, bits: int) returns (hosts: seq<Host>)
    requires ip.Valid()
    ensures hosts == HostSelectors(ip, bits)
  {
    match ip
    case Star => return [AnyHost];
    case Unparsable => return [];
    case Cidr(prefix) => return [HostPrefix(UnmapPrefix(prefix).Masked())];
    case Range(first, last) =>
      var start, end := first.Unmap(), last.Unmap();
      UnmapValid(first);
      UnmapValid(last);
      if start.width != end.width || start.Compare(end) > 0 {
        return [];
      }
      var prefixes := AddressRangePrefixes(start, end);
      return PrefixHosts(prefixes);
    case Single(addr) =>
      UnmapValid(addr);
      var base, short := addr.Unmap(), UnmapBits(addr, bits);
      if short < 0 {
        return [OneHost(base)];
      } else if short > base.width {
        return [];
      }
      return [HostPrefix(Prefix(base, short).Masked())];
  }

  /** The two readings of one selector agree, for every selector kind and every bit count. */
  lemma SelectorsAgree(ip: Selector, bits: int, query: Addr)
    requires ip.Valid() && query.WellFormed()
    ensures MatchesIP(ip, bits, query) <==> SomeAdmits(HostSelectors(ip, bits), query.Unmap())
  {
    var address := query.Unmap();
    UnmapValid(query);
    var hosts := HostSelectors(ip, bits);
    match ip
    case Star => assert hosts[0].Admits(address);
    case Unparsable =>
    case Cidr(prefix) =>
      MaskingKeepsMembers(UnmapPrefix(prefix), address);
      assert hosts[0].Admits(address) <==> MatchesIP(ip, bits, query);
    case Range(first, last) => RangesAgree(first, last, bits, query);
    case Single(addr) =>
      UnmapValid(addr);
      var base, short := addr.Unmap(), UnmapBits(addr, bits);
      if 0 <= short <= base.width {
        MaskingKeepsMembers(Prefix(base, short), address);
      }
      assert hosts != [] ==> (hosts[0].Admits(address) <==> MatchesIP(ip, bits, query));
  }

  lemma RangesAgree(first: Addr, last: Addr, bits: int, query: Addr)
    requires first.Valid() && last.Valid() && query.WellFormed()
    ensures MatchesIP(Range(first, last), bits, query) <==>
            SomeAdmits(HostSelectors(Range(first, last), bits), query.Unmap())
  {
    hide CoverPrefixes;
    var start, end, address := first.Unmap(), last.Unmap(), query.Unmap();
    UnmapValid(first);
    UnmapValid(last);
    if start.width == end.width && start.Compare(end) <= 0 {
      CoverPrefixesExact(start, end);
      var ps := CoverPrefixes(start, end);
      var hosts := HostSelectors(Range(first, last), bits);
      assert hosts == PrefixHosts(ps);
      assert AnyContains(ps, address) <==> InRange(address, start, end);
      if i :| 0 <= i < |ps| && ps[i].Contains(address) {
        assert hosts[i].Admits(address);
      }
    }
  }

  function NetworkOf(protocol: int): Network {
    if protocol == 6 then Tcp else if protocol == 17 then Udp else Ip(protocol)
  }

  function RawNetworks(protocols: seq<int>): seq<Network> {
    if protocols == [] then []
    else
      var p := protocols[|protocols| - 1];
      RawNetworks(protocols[..|protocols| - 1]) + if p < 0 || p > 255 then [] else [NetworkOf(p)]
  }

  function Networks(protocols: seq<int>): seq<Network> {
    Ordering.Compact(RawNetworks(if protocols == [] then [1, 6, 17, 58] else protocols))
  }

  method FirewallNetworks(protocols: seq<int>) returns (result: seq<Network>)
    ensures result == Networks(protocols)
  {
    var listed := protocols;
    if |listed| == 0 {
      listed := [1, 6, 17, 58];
    }
    result := [];
    for i := 0 to |listed|
      invariant result == RawNetworks(listed[..i])
    {
      assert listed[..i + 1][..i] == listed[..i];
      var protocol := listed[i];
      if protocol < 0 || protocol > 255 {
        continue;
      }
      result := result + [NetworkOf(protocol)];
    }
    assert listed[..|listed|] == listed;
    result := Ordering.Compact(result);
  }

  lemma {:induction false} RawNetworksProtocols(protocols: seq<int>, protocol: int)
    ensures (exists n :: n in RawNetworks(protocols) && n.Protocol() == protocol) <==>
            protocol in protocols && 0 <= protocol <= 255
  {
    if protocols != [] {
      var last := |protocols| - 1;
      RawNetworksProtocols(protocols[..last], protocol);
      assert protocols == protocols[..last] + [protocols[last]];
      if protocol == protocols[last] && 0 <= protocol <= 255 {
        assert NetworkOf(protocol) in RawNetworks(protocols);
      }
    }
  }

  lemma NetworksAgree(rule: Rule, protocol: int)
    ensures (exists n :: n in Networks(rule.protocols) && n.Protocol() == protocol) <==>
            MatchesProtocol(rule, protocol) && 0 <= protocol <= 255
  {
    RawNetworksProtocols(if rule.protocols == [] then [1, 6, 17, 58] else rule.protocols, protocol);
  }

  /** The compiled forms of the first `n` sources of a rule. */
  function SourceHosts(rule: Rule, n: nat): (hosts: Hosts)
    requires rule.Valid() && n <= |rule.sources|
  {
    if n == 0 then []
    else SourceHosts(rule, n - 1) + HostSelectors(rule.sources[n - 1], rule.SourceBits(n - 1))
  }

  method FirewallSourceHosts(rule: Rule) returns (hosts: seq<Host>)
    requires rule.Valid()
    ensures hosts == SourceHosts(rule, |rule.sources|)
  {
    hide HostSelectors;
    hosts := [];
    for index := 0 to |rule.sources|
      invariant hosts == SourceHosts(rule, index)
    {
      var bits := -1;
      if index < |rule.sourceBits| {
        bits := rule.sourceBits[index];
      }
      var more := FirewallHostSelectors(rule.sources[index], bits);
      hosts := hosts + more;
    }
  }

  lemma SomeAdmitsConcat(a: Hosts, b: Hosts, query: Addr)
    ensures SomeAdmits(a + b, query) <==> SomeAdmits(a, query) || SomeAdmits(b, query)
  {
    var ab := a + b;
    if i :| 0 <= i < |a| && a[i].Admits(query) {
      assert ab[i].Admits(query);
    }
    if i :| 0 <= i < |b| && b[i].Admits(query) {
      assert ab[|a| + i].Admits(query);
    }
    if i :| 0 <= i < |ab| && ab[i].Admits(query) {
      assert if i < |a| then a[i].Admits(query) else b[i - |a|].Admits(query);
    }
  }

  lemma {:induction false} SourcesAgree(rule: Rule, n: nat, query: Addr)
    requires rule.Valid() && n <= |rule.sources| && query.WellFormed()
    ensures SomeAdmits(SourceHosts(rule, n), query.Unmap()) <==>
            exists i :: 0 <= i < n && MatchesIP(rule.sources[i], rule.SourceBits(i), query)
  {
    hide MatchesIP, HostSelectors;
    if n != 0 {
      SourcesAgree(rule, n - 1, query);
      var last := HostSelectors(rule.sources[n - 1], rule.SourceBits(n - 1));
      SomeAdmitsConcat(SourceHosts(rule, n - 1), last, query.Unmap());
      SelectorsAgree(rule.sources[n - 1], rule.SourceBits(n - 1), query);
    }
  }

  function RuleFor(network: Network, hosts: seq<Host>, localHosts: seq<Host>, d: Destination): FirewallRule {
    if d.first == 0 && d.last == 0xffff then FirewallRule(network, hosts, localHosts, [], [])
    else if d.first == d.last then FirewallRule(network, hosts, localHosts, [d.first], [])
    else FirewallRule(network, hosts, localHosts, [], [PortRange(d.first, d.last)])
  }

  /** One rule for each of the first `n` networks. */
  function NetworkRules(networks: seq<Network>, n: nat, hosts: Hosts, localHosts: Hosts, d: Destination): (c: Config)
    requires n <= |networks|
    ensures |c| == n
    ensures forall i :: 0 <= i < n ==> c[i] == RuleFor(networks[i], hosts, localHosts, d)
  {
    seq(n, i requires 0 <= i < n => RuleFor(networks[i], hosts, localHosts, d))
  }

  function DestinationRules(networks: seq<Network>, hosts: Hosts, d: Destination): Config
    requires d.ip.Valid()
  {
    var localHosts := HostSelectors(d.ip, BitsOr(d.bits));
    if localHosts == [] || d.last < d.first then []
    else NetworkRules(networks, |networks|, hosts, localHosts, d)
  }

  /** The rules for the first `n` destinations of a rule. */
  function DestinationsRules(rule: Rule, n: nat, networks: seq<Network>, hosts: Hosts): Config
    requires rule.Valid() && n <= |rule.destinations|
  {
    if n == 0 then []
    else DestinationsRules(rule, n - 1, networks, hosts) + DestinationRules(networks, hosts, rule.destinations[n - 1])
  }

  function CompileRule(rule: Rule): Config
    requires rule.Valid()
  {
    var hosts := SourceHosts(rule, |rule.sources|);
    if hosts == [] then []
    else DestinationsRules(rule, |rule.destinations|, Networks(rule.protocols), hosts)
  }

  /** The rules for the first `n` rules of a packet filter. */
  function Compile(rules: seq<Rule>, n: nat): Config
    requires n <= |rules|
    requires forall i :: 0 <= i < |rules| ==> rules[i].Valid()
  {
    if n == 0 then [] else Compile(rules, n - 1) + CompileRule(rules[n - 1])
  }

  method CompileDestination(networks: seq<Network>, hosts: seq<Host>,
                            d: Destination) returns (result: seq<FirewallRule>)
    requires d.ip.Valid() && forall i :: 0 <= i < |hosts| ==> hosts[i].Valid()
    ensures result == DestinationRules(networks, hosts, d)
  {
    hide HostSelectors;
    var localHosts := FirewallHostSelectors(d.ip, BitsOr(d.bits));
    result := [];
    if |localHosts| == 0 || d.last < d.first {
      return;
    }
    for i := 0 to |networks|
      invariant result == NetworkRules(networks, i, hosts, localHosts, d)
    {
      var rule := FirewallRule(networks[i], hosts, localHosts, [], []);
      if d.first == 0 && d.last == 0xffff {
      } else if d.first == d.last {
        rule := rule.(ports := [d.first]);
      } else {
        rule := rule.(portRanges := [PortRange(d.first, d.last)]);
      }
      result := result + [rule];
    }
  }

  method CompileOneRule(rule: Rule) returns (config: seq<FirewallRule>)
    requires rule.Valid()
    ensures config == CompileRule(rule)
  {
    hide HostSelectors, Networks, SourceHosts, DestinationRules;
    var hosts := FirewallSourceHosts(rule);
    config := [];
    if |hosts| == 0 {
      return;
    }
    var networks := FirewallNetworks(rule.protocols);
    for j := 0 to |rule.destinations|
      invariant config == DestinationsRules(rule, j, networks, hosts)
    {
      var more := CompileDestination(networks, hosts, rule.destinations[j]);
      config := config + more;
    }
  }

  // ----- Meaning preservation -----

  lemma AdmitsConcat(a: Config, b: Config, flow: Flow)
    ensures Admits(a + b, flow) <==> Admits(a, flow) || Admits(b, flow)
  {
    hide RuleAdmits;
    var ab := a + b;
    if i :| 0 <= i < |a| && RuleAdmits(a[i], flow) {
      assert RuleAdmits(ab[i], flow);
    }
    if i :| 0 <= i < |b| && RuleAdmits(b[i], flow) {
      assert RuleAdmits(ab[|a| + i], flow);
    }
    if i :| 0 <= i < |ab| && RuleAdmits(ab[i], flow) {
      assert if i < |a| then RuleAdmits(a[i], flow) else RuleAdmits(b[i - |a|], flow);
    }
  }

  predicate SomeNetwork(networks: seq<Network>, protocol: int) {
    exists i :: 0 <= i < |networks| && networks[i].Protocol() == protocol
  }

  lemma RuleForAdmits(network: Network, hosts: Hosts, localHosts: Hosts, d: Destination, flow: Flow)
    requires hosts != [] && localHosts != [] && d.first <= d.last
    ensures RuleAdmits(RuleFor(network, hosts, localHosts, d), flow) <==>
            && network.Protocol() == flow.protocol
            && SomeAdmits(hosts, flow.source.Unmap()) && SomeAdmits(localHosts, flow.destination.Unmap())
            && d.first <= flow.port <= d.last
  {
    hide SomeAdmits;
    var rule := RuleFor(network, hosts, localHosts, d);
    assert PortsAdmit(rule.ports, rule.portRanges, flow.port) <==> d.first <= flow.port <= d.last by {
      if rule.portRanges != [] && d.first <= flow.port <= d.last {
        assert rule.portRanges[0].first <= flow.port <= rule.portRanges[0].last;
      }
    }
  }

  lemma DestinationAgrees(networks: seq<Network>, hosts: Hosts, d: Destination, flow: Flow)
    requires d.ip.Valid() && flow.destination.WellFormed() && hosts != []
    ensures Admits(DestinationRules(networks, hosts, d), flow) <==>
            && SomeNetwork(networks, flow.protocol) && SomeAdmits(hosts, flow.source.Unmap())
            && MatchesDestination(d, flow)
  {
    hide HostSelectors, MatchesIP, RuleAdmits;
    SelectorsAgree(d.ip, BitsOr(d.bits), flow.destination);
    var localHosts := HostSelectors(d.ip, BitsOr(d.bits));
    var config := DestinationRules(networks, hosts, d);
    if localHosts != [] && d.first <= d.last {
      forall i | 0 <= i < |networks|
        ensures RuleAdmits(config[i], flow) <==>
                && networks[i].Protocol() == flow.protocol
                && SomeAdmits(hosts, flow.source.Unmap()) && MatchesDestination(d, flow)
      {
        RuleForAdmits(networks[i], hosts, localHosts, d, flow);
      }
      if i :| 0 <= i < |networks| && networks[i].Protocol() == flow.protocol {
        assert RuleAdmits(config[i], flow) <==> SomeAdmits(hosts, flow.source.Unmap()) && MatchesDestination(d, flow);
      }
    }
  }

  lemma {:induction false} DestinationsAgree(rule: Rule, n: nat, networks: seq<Network>, hosts: Hosts, flow: Flow)
    requires rule.Valid() && n <= |rule.destinations| && flow.destination.WellFormed() && hosts != []
    ensures Admits(DestinationsRules(rule, n, networks, hosts), flow) <==>
            && SomeNetwork(networks, flow.protocol) && SomeAdmits(hosts, flow.source.Unmap())
            && MatchesAnyDestination(rule.destinations[..n], flow)
  {
    hide DestinationRules, MatchesDestination, RuleAdmits, SomeNetwork, SomeAdmits;
    if n != 0 {
      DestinationsAgree(rule, n - 1, networks, hosts, flow);
      AdmitsConcat(DestinationsRules(rule, n - 1, networks, hosts),
                   DestinationRules(networks, hosts, rule.destinations[n - 1]), flow);
      DestinationAgrees(networks, hosts, rule.destinations[n - 1], flow);
      assert rule.destinations[..n] == rule.destinations[..n - 1] + [rule.destinations[n - 1]];
    }
  }

  lemma CompiledRuleAgrees(rule: Rule, flow: Flow)
    requires rule.Valid() && flow.source.WellFormed() && flow.destination.WellFormed()
    ensures Admits(CompileRule(rule), flow) <==> RuleAllows(rule, flow) && 0 <= flow.protocol <= 255
  {
    hide SourceHosts, DestinationsRules, Networks, MatchesIP, MatchesProtocol, MatchesAnyDestination, RuleAdmits;
    var hosts := SourceHosts(rule, |rule.sources|);
    var networks := Networks(rule.protocols);
    SourcesAgree(rule, |rule.sources|, flow.source);
    if hosts != [] {
      DestinationsAgree(rule, |rule.destinations|, networks, hosts, flow);
      assert rule.destinations[..|rule.destinations|] == rule.destinations;
      NetworksAgree(rule, flow.protocol);
    }
  }

  /**
   * For every rule list and every flow: the compiled rules admit exactly what `ACLAllows` allows,
   * and nothing outside the protocol numbers an IP header can carry.
   */
  lemma {:induction false} CompilePreservesMeaning(rules: seq<Rule>, n: nat, flow: Flow)
    requires n <= |rules| && forall i :: 0 <= i < |rules| ==> rules[i].Valid()
    requires flow.source.WellFormed() && flow.destination.WellFormed()
    ensures Admits(Compile(rules, n), flow) <==> Allows(rules[..n], flow) && 0 <= flow.protocol <= 255
  {
    hide CompileRule, RuleAllows, RuleAdmits;
    if n != 0 {
      CompilePreservesMeaning(rules, n - 1, flow);
      AdmitsConcat(Compile(rules, n - 1), CompileRule(rules[n - 1]), flow);
      CompiledRuleAgrees(rules[n - 1], flow);
      assert rules[..n] == rules[..n - 1] + [rules[n - 1]];
    }
  }

  method FirewallConfig(rules: seq<Rule>) returns (config: seq<FirewallRule>)
    requires forall i :: 0 <= i < |rules| ==> rules[i].Valid()
    ensures forall i :: 0 <= i < |config| ==> ValidRule(config[i])
    ensures forall flow: Flow :: flow.source.WellFormed() && flow.destination.WellFormed() ==>
              (Admits(config, flow) <==> Allows(rules, flow) && 0 <= flow.protocol <= 255)
    ensures forall flow: Flow :: flow.source.WellFormed() && flow.destination.WellFormed() ==>
              (Admits(config, flow) <==> Permits(rules, flow) && 0 <= flow.protocol <= 255)
  {
    hide CompileRule, Allows, Admits, Compile, Permits;
    config := Compiled(rules);
    assert rules[..|rules|] == rules;
    forall flow: Flow | flow.source.WellFormed() && flow.destination.WellFormed()
      ensures Admits(config, flow) <==> Allows(rules, flow) && 0 <= flow.protocol <= 255
      ensures Admits(config, flow) <==> Permits(rules, flow) && 0 <= flow.protocol <= 255
    {
      CompilePreservesMeaning(rules, |rules|, flow);
      AllowsMeaning(rules, flow);
    }
  }

  /** The loop over the rules, each of which is compiled on its own. */
  method Compiled(rules: seq<Rule>) returns (config: seq<FirewallRule>)
    requires forall i :: 0 <= i < |rules| ==> rules[i].Valid()
    ensures config == Compile(rules, |rules|)
  {
    hide CompileRule;
    config := [];
    for r := 0 to |rules|
      invariant config == Compile(rules, r)
    {
      var more := CompileOneRule(rules[r]);
      config := config + more;
    }
  }

  /** Outside those numbers the two differ: a filter can name protocol 256 and `ACLAllows` then answers yes. */
  lemma ProtocolOutOfRange(source: Addr, destination: Addr, port: Port) returns (rules: seq<Rule>, flow: Flow)
    requires source.WellFormed() && destination.WellFormed()
    ensures |rules| == 1 && rules[0].Valid()
    ensures flow == Flow(source, destination, 256, port)
    ensures Allows(rules, flow) && !Admits(Compile(rules, 1), flow)
  {
    var rule := Rule([Star], [], [Destination(Star, None, 0, 0xffff)], [256]);
    rules, flow := [rule], Flow(source, destination, 256, port);
    assert MatchesIP(rule.sources[0], rule.SourceBits(0), source);
    assert MatchesDestination(rule.destinations[0], flow);
    assert RuleAllows(rules[0], flow);
    CompilePreservesMeaning(rules, 1, flow);
  }
}
