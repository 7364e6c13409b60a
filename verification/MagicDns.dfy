/**
 * The in-memory MagicDNS resolver (`dns.go`). Name normalisation and address parsing are
 * parameters, so every statement holds whatever they do.
 */
module MagicDns {
  import opened Addresses
  import opened Options
  import opened Ordering

  datatype Kind = A | AAAA | CNAME | Other

  datatype Record = Record(name: string, kind: Kind, value: string)

  datatype Network = Ip | Ip4 | Ip6

  /** Records grouped by normalised name, with the two text functions. */
  datatype Zone = Zone(
    records: map<string, seq<Record>>, normalize: string -> string, parse: string -> Option<Addr>)
  {
    function At(name: string): seq<Record> {
      if name in records then records[name] else []
    }

    /** The address a record contributes to a lookup, if any. */
    function Contribution(record: Record, network: Network): Option<Addr> {
      if record.kind in {A, AAAA} then
        match parse(record.value)
        case None => None
        case Some(raw) =>
          var address := raw.Unmap();
          if (network.Ip4? && address.width != 32) || (network.Ip6? && address.width != 128) then None
          else Some(address)
      else None
    }

    ghost predicate Alias(from: string, to: string) {
      exists i :: 0 <= i < |At(from)| && At(from)[i].kind.CNAME? && normalize(At(from)[i].value) == to
    }

    ghost predicate HasAddress(name: string, network: Network, a: Addr) {
      exists i :: 0 <= i < |At(name)| && Contribution(At(name)[i], network) == Some(a)
    }

    /** A chain of CNAME records. */
    ghost predicate Chain(path: seq<string>) {
      path != [] && forall i :: 0 <= i < |path| - 1 ==> Alias(path[i], path[i + 1])
    }

    ghost predicate Reachable(from: string, to: string) {
      exists path :: Chain(path) && path[0] == from && path[|path| - 1] == to
    }

    ghost predicate Yields(names: set<string>, network: Network, a: Addr) {
      exists name :: name in names && HasAddress(name, network, a)
    }

    /** What a lookup of `name` has to return. */
    ghost predicate Answers(name: string, network: Network, a: Addr) {
      exists to :: Reachable(name, to) && HasAddress(to, network, a)
    }
  }

  lemma ReachSelf(zone: Zone, name: string)
    ensures zone.Reachable(name, name)
  {
    assert zone.Chain([name]);
  }

  lemma ReachVia(zone: Zone, from: string, mid: string, to: string)
    requires zone.Alias(from, mid) && zone.Reachable(mid, to)
    ensures zone.Reachable(from, to)
  {
    var path :| zone.Chain(path) && path[0] == mid && path[|path| - 1] == to;
    assert zone.Chain([from] + path);
  }

  /** Every alias of a name in `explored` is in `seen`. */
  ghost predicate Explored(zone: Zone, explored: set<string>, seen: set<string>) {
    forall from, to :: from in explored && zone.Alias(from, to) ==> to in seen
  }

  lemma {:induction false} ClosedHoldsReachable(zone: Zone, names: set<string>, path: seq<string>)
    requires Explored(zone, names, names) && zone.Chain(path) && path[0] in names
    ensures path[|path| - 1] in names
    decreases |path|
  {
    if |path| > 1 {
      assert zone.Alias(path[0], path[1]);
      assert forall i :: 0 <= i < |path[1..]| - 1 ==> zone.Alias(path[1..][i], path[1..][i + 1]) by {
        forall i | 0 <= i < |path[1..]| - 1 ensures zone.Alias(path[1..][i], path[1..][i + 1]) {
          assert zone.Alias(path[i + 1], path[i + 1 + 1]);
        }
      }
      ClosedHoldsReachable(zone, names, path[1..]);
    }
  }

  /**
   * Exploring from `name`, whose first `done` records are handled, has grown `seen` to `visited`
   * and gathered `result`.
   */
  ghost predicate Gathered(
    zone: Zone, name: string, network: Network, seen: set<string>, visited: set<string>, done: nat, result: seq<Addr>)
    requires done <= |zone.At(name)|
  {
    && seen + {name} <= visited
    && (forall to :: to in visited - seen ==> zone.Reachable(name, to))
    && Explored(zone, visited - seen - {name}, visited)
    && (forall j :: 0 <= j < done && zone.At(name)[j].kind.CNAME? ==> zone.normalize(zone.At(name)[j].value) in visited)
    && (forall a :: a in result <==>
          || zone.Yields(visited - seen - {name}, network, a)
          || OwnAddress(zone, name, network, done, a))
  }

  ghost predicate OwnAddress(zone: Zone, name: string, network: Network, done: nat, a: Addr)
    requires done <= |zone.At(name)|
  {
    exists j :: 0 <= j < done && zone.Contribution(zone.At(name)[j], network) == Some(a)
  }

  /** The contract of a whole call. */
  ghost predicate Resolved(
    zone: Zone, name: string, network: Network, seen: set<string>, visited: set<string>, result: seq<Addr>)
  {
    && seen <= visited && name in visited
    && (forall to :: to in visited - seen ==> zone.Reachable(name, to))
    && Explored(zone, visited - seen, visited)
    && (forall a :: a in result <==> zone.Yields(visited - seen, network, a))
  }

  lemma OwnAddressNext(zone: Zone, name: string, network: Network, i: nat, a: Addr)
    requires i < |zone.At(name)|
    ensures OwnAddress(zone, name, network, i + 1, a) <==>
            OwnAddress(zone, name, network, i, a) || zone.Contribution(zone.At(name)[i], network) == Some(a)
  {
  }

  lemma GatherAddress(
    zone: Zone, name: string, network: Network, seen: set<string>, visited: set<string>, i: nat, result: seq<Addr>,
    more: seq<Addr>)
    requires i < |zone.At(name)| && !zone.At(name)[i].kind.CNAME?
    requires Gathered(zone, name, network, seen, visited, i, result)
    requires forall a :: a in more <==> zone.Contribution(zone.At(name)[i], network) == Some(a)
    ensures Gathered(zone, name, network, seen, visited, i + 1, result + more)
  {
    forall a ensures OwnAddress(zone, name, network, i + 1, a) <==> OwnAddress(zone, name, network, i, a) || a in more {
      OwnAddressNext(zone, name, network, i, a);
    }
  }

  lemma YieldsUnion(zone: Zone, network: Network, s: set<string>, t: set<string>, a: Addr)
    ensures zone.Yields(s + t, network, a) <==> zone.Yields(s, network, a) || zone.Yields(t, network, a)
  {
    if name :| name in s && zone.HasAddress(name, network, a) {
      assert name in s + t;
    }
    if name :| name in t && zone.HasAddress(name, network, a) {
      assert name in s + t;
    }
  }

  lemma GatherAlias(
    zone: Zone, name: string, network: Network, seen: set<string>, visited: set<string>, i: nat, result: seq<Addr>,
    visited': set<string>, more: seq<Addr>)
    requires i < |zone.At(name)| && zone.At(name)[i].kind.CNAME?
    requires Gathered(zone, name, network, seen, visited, i, result)
    requires Resolved(zone, zone.normalize(zone.At(name)[i].value), network, visited, visited', more)
    ensures Gathered(zone, name, network, seen, visited', i + 1, result + more)
  {
    hide Zone.HasAddress, Zone.Yields, Zone.Contribution, Zone.Reachable;
    var target := zone.normalize(zone.At(name)[i].value);
    assert zone.Alias(name, target);
    forall to | to in visited' - visited ensures zone.Reachable(name, to) {
      ReachVia(zone, name, target, to);
    }
    var before, added := visited - seen - {name}, visited' - visited;
    assert visited' - seen - {name} == before + added;
    forall a ensures a in result + more <==>
        zone.Yields(before + added, network, a) || OwnAddress(zone, name, network, i + 1, a)
    {
      YieldsUnion(zone, network, before, added, a);
      OwnAddressNext(zone, name, network, i, a);
      CnameContributesNothing(zone, zone.At(name)[i], network);
    }
  }

  lemma CnameContributesNothing(zone: Zone, record: Record, network: Network)
    requires record.kind.CNAME?
    ensures zone.Contribution(record, network) == None
  {
  }

  /** All records of `name` handled: the call is complete. */
  lemma GatheredAll(
    zone: Zone, name: string, network: Network, seen: set<string>, visited: set<string>, result: seq<Addr>)
    requires name !in seen
    requires Gathered(zone, name, network, seen, visited, |zone.At(name)|, result)
    ensures Resolved(zone, name, network, seen, visited, result)
  {
    hide Zone.Contribution, Zone.Reachable;
    var before := visited - seen - {name};
    assert visited - seen == before + {name};
    forall a ensures a in result <==> zone.Yields(before + {name}, network, a) {
      YieldsUnion(zone, network, before, {name}, a);
      assert zone.Yields({name}, network, a) <==> zone.HasAddress(name, network, a);
      assert zone.HasAddress(name, network, a) <==> OwnAddress(zone, name, network, |zone.At(name)|, a);
    }
    forall to | zone.Alias(name, to) ensures to in visited {
    }
  }

  /**
   * `resolveDNSName` with its shared `seen` map as an in and out parameter. It adds to `seen` only
   * names reachable from `name`, leaves none of them half explored, and returns the addresses of
   * exactly the names it added.
   */
  method ResolveName(zone: Zone, name: string, network: Network, seen: set<string>)
    returns (result: seq<Addr>, visited: set<string>)
    ensures Resolved(zone, name, network, seen, visited, result)
    decreases zone.records.Keys - seen
  {
    if name in seen {
      return [], seen;
    }
    result, visited := [], seen + {name};
    ReachSelf(zone, name);
    var records := zone.At(name);
    for i := 0 to |records|
      invariant Gathered(zone, name, network, seen, visited, i, result)
    {
      if records[i].kind.CNAME? {
        var more, visited' := ResolveName(zone, zone.normalize(records[i].value), network, visited);
        GatherAlias(zone, name, network, seen, visited, i, result, visited', more);
        result, visited := result + more, visited';
      } else {
        var address := zone.Contribution(records[i], network);
        var more := if address.Some? then [address.value] else [];
        GatherAddress(zone, name, network, seen, visited, i, result, more);
        result := result + more;
      }
    }
    GatheredAll(zone, name, network, seen, visited, result);
  }

  /** From an empty `seen`: exactly the addresses at the names reachable by CNAME records. */
  lemma ResolvedFromScratch(zone: Zone, name: string, network: Network, visited: set<string>, result: seq<Addr>,
                            a: Addr)
    requires Resolved(zone, name, network, {}, visited, result)
    ensures a in result <==> zone.Answers(name, network, a)
  {
    hide Zone.HasAddress;
    assert visited - {} == visited;
    forall to | zone.Reachable(name, to) ensures to in visited {
      var path :| zone.Chain(path) && path[0] == name && path[|path| - 1] == to;
      ClosedHoldsReachable(zone, visited, path);
    }
  }

  /** The view's records grouped by normalised name, each group in view order. */
  function Group(view: seq<Record>, normalize: string -> string): map<string, seq<Record>> {
    if view == [] then map[]
    else
      var last := view[|view| - 1];
      var groups := Group(view[..|view| - 1], normalize);
      var name := normalize(last.name);
      groups[name := (if name in groups then groups[name] else []) + [last]]
  }

  lemma {:induction false} GroupHolds(view: seq<Record>, normalize: string -> string, parse: string -> Option<Addr>,
                                      name: string, record: Record)
    ensures record in Zone(Group(view, normalize), normalize, parse).At(name) <==>
            record in view && normalize(record.name) == name
  {
    if view != [] {
      GroupHolds(view[..|view| - 1], normalize, parse, name, record);
      assert view == view[..|view| - 1] + [view[|view| - 1]];
    }
  }

  // ----- What the records say -----

  /** The record gives `a` as an address of `name`, in the family asked for. */
  ghost predicate GivesAddress(record: Record, normalize: string -> string, parse: string -> Option<Addr>,
                               name: string, network: Network, a: Addr)
  {
    && normalize(record.name) == name && (record.kind == A || record.kind == AAAA)
    && parse(record.value).Some? && a == Plain(parse(record.value).value)
    && (network == Ip4 ==> a.width == 32) && (network == Ip6 ==> a.width == 128)
  }

  /** The record makes `name` an alias of `to`. */
  predicate GivesAlias(record: Record, normalize: string -> string, name: string, to: string) {
    normalize(record.name) == name && record.kind == CNAME && normalize(record.value) == to
  }

  ghost predicate SomeAddress(view: seq<Record>, normalize: string -> string, parse: string -> Option<Addr>,
                              name: string, network: Network, a: Addr)
  {
    exists i :: 0 <= i < |view| && GivesAddress(view[i], normalize, parse, name, network, a)
  }

  ghost predicate SomeAlias(view: seq<Record>, normalize: string -> string, name: string, to: string) {
    exists i :: 0 <= i < |view| && GivesAlias(view[i], normalize, name, to)
  }

  /** A chain of aliases, each given by a record of the view. */
  ghost predicate Aliases(view: seq<Record>, normalize: string -> string, path: seq<string>) {
    path != [] && forall i :: 0 <= i < |path| - 1 ==> SomeAlias(view, normalize, path[i], path[i + 1])
  }

  /** Some record of the view gives `a` as an address of the last name of a chain from `name`. */
  ghost predicate Resolves(view: seq<Record>, normalize: string -> string, parse: string -> Option<Addr>,
                           name: string, network: Network, a: Addr)
  {
    exists path :: Aliases(view, normalize, path) && path[0] == name
                   && SomeAddress(view, normalize, parse, path[|path| - 1], network, a)
  }

  ghost function ZoneOf(view: seq<Record>, normalize: string -> string, parse: string -> Option<Addr>): Zone {
    Zone(Group(view, normalize), normalize, parse)
  }

  lemma ContributionMeaning(zone: Zone, record: Record, network: Network, a: Addr)
    ensures zone.Contribution(record, network) == Some(a) <==>
            GivesAddress(record, zone.normalize, zone.parse, zone.normalize(record.name), network, a)
  {
    if record.kind in {A, AAAA} && zone.parse(record.value).Some? {
      UnmapMeaning(zone.parse(record.value).value);
    }
  }

  lemma HasAddressMeaning(view: seq<Record>, normalize: string -> string, parse: string -> Option<Addr>,
                          name: string, network: Network, a: Addr)
    ensures ZoneOf(view, normalize, parse).HasAddress(name, network, a) <==>
            SomeAddress(view, normalize, parse, name, network, a)
  {
    hide Group, GivesAddress;
    var zone := ZoneOf(view, normalize, parse);
    if zone.HasAddress(name, network, a) {
      var i :| 0 <= i < |zone.At(name)| && zone.Contribution(zone.At(name)[i], network) == Some(a);
      var r := zone.At(name)[i];
      GroupHolds(view, normalize, parse, name, r);
      ContributionMeaning(zone, r, network, a);
      var j :| 0 <= j < |view| && view[j] == r;
    }
    forall j | 0 <= j < |view| && GivesAddress(view[j], normalize, parse, name, network, a)
      ensures zone.HasAddress(name, network, a)
    {
      var r := view[j];
      GivesName(r, normalize, parse, name, network, a);
      GroupHolds(view, normalize, parse, name, r);
      ContributionMeaning(zone, r, network, a);
      var i :| 0 <= i < |zone.At(name)| && zone.At(name)[i] == r;
    }
  }

  lemma GivesName(record: Record, normalize: string -> string, parse: string -> Option<Addr>, name: string,
                  network: Network, a: Addr)
    requires GivesAddress(record, normalize, parse, name, network, a)
    ensures normalize(record.name) == name
  {
  }

  lemma AliasMeaning(view: seq<Record>, normalize: string -> string, parse: string -> Option<Addr>,
                     name: string, to: string)
    ensures ZoneOf(view, normalize, parse).Alias(name, to) <==> SomeAlias(view, normalize, name, to)
  {
    hide Group;
    var zone := ZoneOf(view, normalize, parse);
    if zone.Alias(name, to) {
      var i :| 0 <= i < |zone.At(name)| && zone.At(name)[i].kind.CNAME? && normalize(zone.At(name)[i].value) == to;
      var r := zone.At(name)[i];
      GroupHolds(view, normalize, parse, name, r);
      var j :| 0 <= j < |view| && view[j] == r;
    }
    forall j | 0 <= j < |view| && GivesAlias(view[j], normalize, name, to) ensures zone.Alias(name, to) {
      GroupHolds(view, normalize, parse, name, view[j]);
      var i :| 0 <= i < |zone.At(name)| && zone.At(name)[i] == view[j];
    }
  }

  lemma ChainMeaning(view: seq<Record>, normalize: string -> string, parse: string -> Option<Addr>, path: seq<string>)
    ensures ZoneOf(view, normalize, parse).Chain(path) <==> Aliases(view, normalize, path)
  {
    hide ZoneOf, SomeAlias;
    forall i | 0 <= i < |path| - 1
      ensures ZoneOf(view, normalize, parse).Alias(path[i], path[i + 1]) <==>
              SomeAlias(view, normalize, path[i], path[i + 1])
    {
      AliasMeaning(view, normalize, parse, path[i], path[i + 1]);
    }
  }

  /** The answers of a lookup are what the records of the view resolve the name to. */
  lemma AnswersMeaning(view: seq<Record>, normalize: string -> string, parse: string -> Option<Addr>, name: string,
                       network: Network, a: Addr)
    ensures ZoneOf(view, normalize, parse).Answers(name, network, a)
            <==> Resolves(view, normalize, parse, name, network, a)
  {
    hide ZoneOf, SomeAlias, SomeAddress;
    var zone := ZoneOf(view, normalize, parse);
    if zone.Answers(name, network, a) {
      var to :| zone.Reachable(name, to) && zone.HasAddress(to, network, a);
      var path :| zone.Chain(path) && path[0] == name && path[|path| - 1] == to;
      ChainMeaning(view, normalize, parse, path);
      HasAddressMeaning(view, normalize, parse, to, network, a);
    }
    if Resolves(view, normalize, parse, name, network, a) {
      var path :| Aliases(view, normalize, path) && path[0] == name
                  && SomeAddress(view, normalize, parse, path[|path| - 1], network, a);
      ChainMeaning(view, normalize, parse, path);
      HasAddressMeaning(view, normalize, parse, path[|path| - 1], network, a);
      assert zone.Reachable(name, path[|path| - 1]);
    }
  }

  /** The networks a lookup takes. */
  lemma ParseNetworkMeaning(network: string)
    ensures ParseNetwork(network) == Some(Ip) <==> network == "" || network == "ip"
    ensures ParseNetwork(network) == Some(Ip4) <==> network == "ip4"
    ensures ParseNetwork(network) == Some(Ip6) <==> network == "ip6"
  {
  }

  function ParseNetwork(network: string): Option<Network> {
    if network == "" || network == "ip" then Some(Ip)
    else if network == "ip4" then Some(Ip4)
    else if network == "ip6" then Some(Ip6)
    else None
  }

  /**
   * The names a lookup tries in turn. The source also tests that the host does not end in a dot;
   * a host without any dot does not.
   */
  function Candidates(host: string, searchDomains: seq<string>, normalize: string -> string): (names: seq<string>)
    ensures names != [] && names[0] == normalize(host)
    ensures '.' in host ==> |names| == 1
    ensures '.' !in host ==>
              && |names| == 1 + |searchDomains|
              && forall i :: 0 <= i < |searchDomains| ==> names[1 + i] == normalize(host + "." + searchDomains[i])
  {
    [normalize(host)] +
    if '.' in host then []
    else seq(|searchDomains|, i requires 0 <= i < |searchDomains| => normalize(host + "." + searchDomains[i]))
  }

  predicate AddrLe(a: Addr, b: Addr) {
    a.Compare(b) <= 0
  }

  lemma AddrOrder()
    ensures TotalOrder(AddrLe)
  {
  }

  datatype Lookup = Found(addresses: seq<Addr>) | UnsupportedNetwork | NoSuchHost

  /**
   * A lookup finds the addresses of the first candidate name that has any, in ascending order and
   * without repetition, and fails only when no candidate has one.
   */
  ghost predicate Correct(zone: Zone, names: seq<string>, network: Network, lookup: Lookup) {
    match lookup
    case Found(addresses) =>
      && addresses != [] && Ascending(addresses, AddrLe)
      && exists k :: FirstAnswered(zone, names, network, k, addresses)
    case UnsupportedNetwork => false
    case NoSuchHost => forall k, a :: 0 <= k < |names| ==> !zone.Answers(names[k], network, a)
  }

  ghost predicate FirstAnswered(zone: Zone, names: seq<string>, network: Network, k: nat, addresses: seq<Addr>) {
    && k < |names|
    && (forall j, a :: 0 <= j < k ==> !zone.Answers(names[j], network, a))
    && (forall a :: a in addresses <==> zone.Answers(names[k], network, a))
  }

  // ----- A lookup, told from the records -----

  /** The name a lookup tries in place `k`: the host, then the host in each search domain. */
  function NameToTry(host: string, searchDomains: seq<string>, normalize: string -> string, k: nat): string
    requires k <= |searchDomains|
  {
    if k == 0 then normalize(host) else normalize(host + "." + searchDomains[k - 1])
  }

  function NamesToTry(host: string, searchDomains: seq<string>): nat {
    if exists i :: 0 <= i < |host| && host[i] == '.' then 1 else 1 + |searchDomains|
  }

  ghost predicate NothingAt(view: seq<Record>, normalize: string -> string, parse: string -> Option<Addr>, name: string,
                            family: Network)
  {
    forall a :: !Resolves(view, normalize, parse, name, family, a)
  }

  /** IPv4 before IPv6, ascending, none twice. */
  predicate InOrder(addresses: seq<Addr>) {
    forall i, j :: 0 <= i < j < |addresses| ==>
      addresses[i].width < addresses[j].width ||
      (addresses[i].width == addresses[j].width && addresses[i].value < addresses[j].value)
  }

  /** The addresses are those of the name in place `k`, and no name before it has any. */
  ghost predicate FoundAt(view: seq<Record>, searchDomains: seq<string>, normalize: string -> string,
                          parse: string -> Option<Addr>, family: Network, host: string, addresses: seq<Addr>, k: int)
  {
    && 0 <= k < NamesToTry(host, searchDomains)
    && (forall j :: 0 <= j < k ==>
          NothingAt(view, normalize, parse, NameToTry(host, searchDomains, normalize, j), family))
    && (forall a :: a in addresses <==>
          Resolves(view, normalize, parse, NameToTry(host, searchDomains, normalize, k), family, a))
  }

  ghost predicate LookedUp(view: seq<Record>, searchDomains: seq<string>, normalize: string -> string,
                           parse: string -> Option<Addr>, family: Network, host: string, lookup: Lookup)
  {
    match lookup
    case Found(addresses) =>
      && addresses != [] && InOrder(addresses)
      && exists k :: FoundAt(view, searchDomains, normalize, parse, family, host, addresses, k)
    case NoSuchHost =>
      forall k :: 0 <= k < NamesToTry(host, searchDomains) ==>
        NothingAt(view, normalize, parse, NameToTry(host, searchDomains, normalize, k), family)
    case UnsupportedNetwork => false
  }

  lemma CandidatesMeaning(host: string, searchDomains: seq<string>, normalize: string -> string)
    ensures |Candidates(host, searchDomains, normalize)| == NamesToTry(host, searchDomains)
    ensures forall k :: 0 <= k < NamesToTry(host, searchDomains) ==>
              Candidates(host, searchDomains, normalize)[k] == NameToTry(host, searchDomains, normalize, k)
  {
    assert '.' in host <==> exists i :: 0 <= i < |host| && host[i] == '.';
    if '.' !in host {
      var names := Candidates(host, searchDomains, normalize);
      forall k | 0 <= k < NamesToTry(host, searchDomains)
        ensures names[k] == NameToTry(host, searchDomains, normalize, k)
      {
        assert k > 0 ==> names[1 + (k - 1)] == normalize(host + "." + searchDomains[k - 1]);
      }
    }
  }

  lemma InOrderIffAscending(addresses: seq<Addr>)
    requires Ascending(addresses, AddrLe)
    ensures InOrder(addresses)
  {
    forall i, j | 0 <= i < j < |addresses|
      ensures addresses[i].width < addresses[j].width ||
              (addresses[i].width == addresses[j].width && addresses[i].value < addresses[j].value)
    {
      assert AddrLe(addresses[i], addresses[j]) && addresses[i] != addresses[j];
    }
  }

  lemma LookupMeaning(view: seq<Record>, searchDomains: seq<string>, normalize: string -> string,
                      parse: string -> Option<Addr>, family: Network, host: string, lookup: Lookup)
    requires Correct(ZoneOf(view, normalize, parse), Candidates(host, searchDomains, normalize), family, lookup)
    ensures LookedUp(view, searchDomains, normalize, parse, family, host, lookup)
  {
    hide ZoneOf, Candidates, NameToTry, NamesToTry, Resolves, Ascending, InOrder;
    var zone, names := ZoneOf(view, normalize, parse), Candidates(host, searchDomains, normalize);
    CandidatesMeaning(host, searchDomains, normalize);
    forall name, a ensures zone.Answers(name, family, a) <==> Resolves(view, normalize, parse, name, family, a) {
      AnswersMeaning(view, normalize, parse, name, family, a);
    }
    match lookup
    case Found(addresses) =>
      InOrderIffAscending(addresses);
      var k: nat :| FirstAnswered(zone, names, family, k, addresses);
      forall j | 0 <= j < k
        ensures NothingAt(view, normalize, parse, NameToTry(host, searchDomains, normalize, j), family)
      {
        assert names[j] == NameToTry(host, searchDomains, normalize, j);
      }
      assert FoundAt(view, searchDomains, normalize, parse, family, host, addresses, k);
    case NoSuchHost =>
      forall k | 0 <= k < NamesToTry(host, searchDomains)
        ensures NothingAt(view, normalize, parse, NameToTry(host, searchDomains, normalize, k), family)
      {
        assert names[k] == NameToTry(host, searchDomains, normalize, k);
      }
  }

  method LookupNetIP(view: seq<Record>, searchDomains: seq<string>, normalize: string -> string,
                     parse: string -> Option<Addr>, network: string, host: string)
    returns (lookup: Lookup)
    ensures match ParseNetwork(network)
            case None => lookup == UnsupportedNetwork
            case Some(family) =>
              Correct(Zone(Group(view, normalize), normalize, parse),
                      Candidates(host, searchDomains, normalize), family, lookup)
    ensures lookup == UnsupportedNetwork <==> network !in {"", "ip", "ip4", "ip6"}
    ensures network in {"", "ip"} ==> LookedUp(view, searchDomains, normalize, parse, Ip, host, lookup)
    ensures network == "ip4" ==> LookedUp(view, searchDomains, normalize, parse, Ip4, host, lookup)
    ensures network == "ip6" ==> LookedUp(view, searchDomains, normalize, parse, Ip6, host, lookup)
  {
    hide Correct, LookedUp, Candidates, ZoneOf, Group;
    lookup := LookUp(view, searchDomains, normalize, parse, network, host);
    if ParseNetwork(network).Some? {
      SameZone(view, normalize, parse);
      LookupMeaning(view, searchDomains, normalize, parse, ParseNetwork(network).value, host, lookup);
      NotUnsupported(ZoneOf(view, normalize, parse), Candidates(host, searchDomains, normalize),
                     ParseNetwork(network).value, lookup);
    }
  }

  lemma SameZone(view: seq<Record>, normalize: string -> string, parse: string -> Option<Addr>)
    ensures ZoneOf(view, normalize, parse) == Zone(Group(view, normalize), normalize, parse)
  {
  }

  lemma NotUnsupported(zone: Zone, names: seq<string>, network: Network, lookup: Lookup)
    requires Correct(zone, names, network, lookup)
    ensures lookup != UnsupportedNetwork
  {
  }

  method LookUp(view: seq<Record>, searchDomains: seq<string>, normalize: string -> string,
                parse: string -> Option<Addr>, network: string, host: string)
    returns (lookup: Lookup)
    ensures match ParseNetwork(network)
            case None => lookup == UnsupportedNetwork
            case Some(family) =>
              Correct(Zone(Group(view, normalize), normalize, parse),
                      Candidates(host, searchDomains, normalize), family, lookup)
  {
    hide Zone.Answers, Candidates;
    var parsed := ParseNetwork(network);
    if parsed.None? {
      return UnsupportedNetwork;
    }
    var groups := GroupRecords(view, normalize);
    var zone := Zone(groups, normalize, parse);
    var names := Candidates(host, searchDomains, normalize);
    lookup := NoSuchHost;
    for i := 0 to |names|
      invariant lookup == NoSuchHost
      invariant forall j, a :: 0 <= j < i ==> !zone.Answers(names[j], parsed.value, a)
    {
      var result := ResolveAll(zone, names[i], parsed.value);
      if result != [] {
        var sorted := SortAddresses(result);
        assert FirstAnswered(zone, names, parsed.value, i, sorted);
        return Found(sorted);
      }
    }
  }

  method GroupRecords(view: seq<Record>, normalize: string -> string) returns (groups: map<string, seq<Record>>)
    ensures groups == Group(view, normalize)
  {
    groups := map[];
    for i := 0 to |view|
      invariant groups == Group(view[..i], normalize)
    {
      assert view[..i + 1][..i] == view[..i];
      var name := normalize(view[i].name);
      groups := groups[name := (if name in groups then groups[name] else []) + [view[i]]];
    }
    assert view[..|view|] == view;
  }

  method ResolveAll(zone: Zone, name: string, network: Network) returns (result: seq<Addr>)
    ensures forall a :: a in result <==> zone.Answers(name, network, a)
    ensures result == [] ==> forall a :: !zone.Answers(name, network, a)
  {
    hide Zone.Answers, Resolved;
    var visited;
    result, visited := ResolveName(zone, name, network, {});
    forall a ensures a in result <==> zone.Answers(name, network, a) {
      ResolvedFromScratch(zone, name, network, visited, result, a);
    }
  }

  method SortAddresses(found: seq<Addr>) returns (result: seq<Addr>)
    ensures Ascending(result, AddrLe)
    ensures forall a :: a in result <==> a in found
    ensures found != [] ==> result != []
  {
    AddrOrder();
    SortSorts(found, AddrLe);
    CompactAscends(Sort(found, AddrLe), AddrLe);
    result := Compact(Sort(found, AddrLe));
  }
}
