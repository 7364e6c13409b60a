/**
 * The client's copy of the network map (`map.go`) and the content its DNS and ACL views show
 * (`views.go`): how a map response changes the nodes, the DNS settings and the named packet
 * filters, and why a view's revision identifies what the view shows.
 */
module NetworkMap {
  import opened Addresses
  import opened Nodes
  import opened Options
  import opened Ordering
  import opened PeerIndex
  import opened Strings
  import Acl
  import Sets

  type Rules = seq<Acl.Rule>
  /** The names and addresses of peers. */
  type NameMap = map<int, (string, seq<Prefix>)>

  datatype DnsRecord = DnsRecord(name: string, kind: string, value: string)

  datatype DnsSettings = DnsSettings(
    proxied: bool, searchDomains: seq<string>, certDomains: seq<string>, nameservers: seq<string>,
    resolvers: seq<string>, routes: map<string, seq<string>>)

  datatype DnsConfig = DnsConfig(settings: DnsSettings, extraRecords: seq<DnsRecord>)

  /**
   * A map response. `None` is an absent field; a named filter that is present but `None` removes
   * that filter. `metadata` says that a part not modelled here changes something.
   */
  datatype Response = Response(
    keepAlive: bool, metadata: bool, node: Option<Node>, peers: Option<seq<Node>>, peersChanged: seq<Node>,
    peersRemoved: seq<int>, patches: seq<Patch>, seen: map<int, bool>, online: map<int, bool>,
    dns: Option<DnsConfig>, packetFilter: Option<Rules>, packetFilters: Option<map<string, Option<Rules>>>)
  {
    /** A keepalive carries no map content. */
    function Effective(): Response {
      if keepAlive then Response(true, metadata, None, None, [], [], [], map[], map[], None, None, None) else this
    }
  }

  /** The state the views are taken from. */
  datatype State = State(
    self: Option<Node>, peers: map<int, Node>, dns: Option<DnsConfig>, named: map<string, Rules>, filters: Rules,
    revision: nat, dnsRevision: nat, aclRevision: nat)

  // ----- The flattened filters -----

  ghost function Concatenated(names: seq<string>, named: map<string, Rules>, n: nat): Rules
    requires n <= |names| && forall i :: 0 <= i < |names| ==> names[i] in named
  {
    if n == 0 then [] else Concatenated(names, named, n - 1) + named[names[n - 1]]
  }

  /** The rules of all named filters, in the order of their names. */
  ghost function Flatten(named: map<string, Rules>): Rules {
    StringOrder();
    var names := ListOf(named.Keys, StringLe);
    assert forall i :: 0 <= i < |names| ==> names[i] in named.Keys;
    Concatenated(names, named, |names|)
  }

  method FlattenFilters(named: map<string, Rules>) returns (result: Rules)
    ensures result == Flatten(named)
  {
    hide StringLe;
    StringOrder();
    var names := SortSet(named.Keys, StringLe);
    assert forall i :: 0 <= i < |names| ==> names[i] in named.Keys;
    result := [];
    for i := 0 to |names|
      invariant result == Concatenated(names, named, i)
    {
      result := result + named[names[i]];
    }
  }

  // ----- What a response does -----

  ghost function Inserted(peers: map<int, Node>, nodes: seq<Node>, n: nat): map<int, Node>
    requires n <= |nodes|
  {
    if n == 0 then peers else Inserted(peers, nodes, n - 1)[nodes[n - 1].id := nodes[n - 1]]
  }

  ghost function Patched(peers: map<int, Node>, patches: seq<Patch>, n: nat): map<int, Node>
    requires n <= |patches|
  {
    if n == 0 then peers
    else
      var before, p := Patched(peers, patches, n - 1), patches[n - 1];
      if p.id in before then before[p.id := p.Apply(before[p.id])] else before
  }

  function SeenNode(n: Node, seen: map<int, bool>, id: int, now: Time): Node {
    if id in seen then n.(lastSeen := if seen[id] then Some(now) else None) else n
  }

  function OnlineNode(n: Node, online: map<int, bool>, id: int): Node {
    if id in online then n.(online := Some(online[id])) else n
  }

  /** The peers that are named and addressed in the new map. */
  ghost function Listed(peers: map<int, Node>, r: Response): map<int, Node> {
    var full := if r.peers.Some? then Inserted(map[], r.peers.value, |r.peers.value|) else peers;
    Inserted(full, r.peersChanged, |r.peersChanged|) - set i | 0 <= i < |r.peersRemoved| :: r.peersRemoved[i]
  }

  /** The changes that concern neither the names nor the addresses of peers. */
  ghost function Touched(peers: map<int, Node>, r: Response, now: Time, expiryNow: Time): map<int, Node> {
    var patched := Patched(peers, r.patches, |r.patches|);
    map id | id in patched :: OnlineNode(SeenNode(patched[id], r.seen, id, now), r.online, id).Expire(expiryNow)
  }

  ghost function NamedAfter(named: map<string, Rules>, r: Response): map<string, Rules> {
    var based := if r.packetFilter.Some? then named["base" := r.packetFilter.value] else named;
    if r.packetFilters.None? then based else Overlaid(based, r.packetFilters.value)
  }

  /** `"*"` without rules clears all named filters before the others are set or removed. */
  ghost function Overlaid(named: map<string, Rules>, update: map<string, Option<Rules>>): map<string, Rules> {
    var kept := if "*" in update && update["*"].None? then map[] else named;
    Edited(kept, update, update.Keys)
  }

  ghost function Edited(kept: map<string, Rules>, update: map<string, Option<Rules>>, done: set<string>): map<string,
                        Rules>
    requires done <= update.Keys
  {
    map name | name in kept.Keys + done && (if name in done && name != "*" then update[name].Some? else name in kept)
      :: if name in done && name != "*" then update[name].value else kept[name]
  }

  function ExpiredSelf(self: Option<Node>, now: Time): Option<Node> {
    if self.Some? then Some(self.value.Expire(now)) else None
  }

  // ----- What the DNS view shows -----

  /** How addresses are written, and how an extra record is put into canonical form. */
  datatype Rendering = Rendering(text: Addr -> string, canonical: DnsRecord -> DnsRecord)

  datatype DnsView = DnsView(settings: Option<DnsSettings>, records: set<DnsRecord>)

  function NodeRecord(name: string, prefix: Prefix, text: Addr -> string): DnsRecord {
    var a := prefix.addr.Unmap();
    DnsRecord(name, if a.width == 128 then "AAAA" else "A", text(a))
  }

  /** Records of a node are those of its name, if any, at each of its addresses. */
  ghost function NodeRecords(name: string, addresses: seq<Prefix>, text: Addr -> string): set<DnsRecord> {
    if name == "" then {} else set i | 0 <= i < |addresses| :: NodeRecord(name, addresses[i], text)
  }

  /** All that the DNS view depends on. */
  datatype DnsSource = DnsSource(dns: Option<DnsConfig>, self: (string, seq<Prefix>), peers: NameMap)

  ghost function Source(s: State): DnsSource {
    DnsSource(s.dns, SelfName(s.self), Names(s.peers))
  }

  ghost function Names(peers: map<int, Node>): NameMap {
    map id | id in peers :: (peers[id].name, peers[id].addresses)
  }

  ghost function PeerRecords(names: NameMap, ids: set<int>, text: Addr -> string): set<DnsRecord>
    requires ids <= names.Keys
  {
    set id, r | id in ids && r in NodeRecords(names[id].0, names[id].1, text) :: r
  }

  ghost function View(source: DnsSource, how: Rendering): DnsView {
    var extra := if source.dns.Some? then source.dns.value.extraRecords else [];
    DnsView(
      if source.dns.Some? then Some(source.dns.value.settings) else None,
      (set i | 0 <= i < |extra| :: how.canonical(extra[i]))
      + NodeRecords(source.self.0, source.self.1, how.text) + PeerRecords(source.peers, source.peers.Keys, how.text))
  }

  ghost function SelfName(self: Option<Node>): (string, seq<Prefix>) {
    if self.Some? then (self.value.name, self.value.addresses) else ("", [])
  }

  lemma ExpiredKeepsName(self: Option<Node>, now: Time)
    ensures SelfName(ExpiredSelf(self, now)) == SelfName(self)
  {
  }

  // ----- Revisions -----

  /**
   * One step of a history: nothing changes without a new revision, and a change of the filters or
   * of what the DNS view depends on is stamped with the new revision.
   */
  ghost predicate Stamped(s: State, s': State) {
    && (s' == s || s'.revision == s.revision + 1)
    && (s'.aclRevision == s'.revision > s.revision
        || (s'.aclRevision == s.aclRevision && s'.named == s.named && s'.filters == s.filters))
    && (s'.dnsRevision == s'.revision > s.revision
        || (s'.dnsRevision == s.dnsRevision && Source(s') == Source(s)))
  }

  ghost predicate Valid(s: State) {
    s.filters == Flatten(s.named) && s.dnsRevision <= s.revision && s.aclRevision <= s.revision
  }

  ghost predicate History(states: seq<State>) {
    && (forall i :: 0 <= i < |states| ==> Valid(states[i]))
    && (forall i :: 0 <= i < |states| - 1 ==> Stamped(states[i], states[i + 1]))
  }

  lemma {:induction false} RevisionsGrow(states: seq<State>, i: nat, j: nat)
    requires History(states) && i <= j < |states|
    ensures states[i].aclRevision <= states[j].aclRevision && states[i].dnsRevision <= states[j].dnsRevision
    ensures states[i].revision <= states[j].revision
  {
    if i < j {
      RevisionsGrow(states, i, j - 1);
      hide Flatten, Source;
      assert Valid(states[j - 1]) && Stamped(states[j - 1], states[j - 1 + 1]);
    }
  }

  /** In any history, one ACL revision stands for one set of rules. */
  lemma {:induction false} AclRevisionIdentifies(states: seq<State>, i: nat, j: nat)
    requires History(states) && i <= j < |states| && states[i].aclRevision == states[j].aclRevision
    ensures states[i].named == states[j].named && states[i].filters == states[j].filters
  {
    if i < j {
      hide Flatten, Source;
      RevisionsGrow(states, i, j - 1);
      assert Valid(states[j - 1]) && Stamped(states[j - 1], states[j - 1 + 1]);
      AclRevisionIdentifies(states, i, j - 1);
    }
  }

  /** In any history, one DNS revision stands for one view: the same settings and set of records. */
  lemma {:induction false} DnsRevisionIdentifies(states: seq<State>, i: nat, j: nat, how: Rendering)
    requires History(states) && i <= j < |states| && states[i].dnsRevision == states[j].dnsRevision
    ensures View(Source(states[i]), how) == View(Source(states[j]), how)
  {
    hide Flatten, Source, View;
    if i < j {
      RevisionsGrow(states, i, j - 1);
      assert Valid(states[j - 1]) && Stamped(states[j - 1], states[j - 1 + 1]);
      DnsRevisionIdentifies(states, i, j - 1, how);
    }
  }

  /** One revision stands for one state. */
  lemma {:induction false} RevisionIdentifies(states: seq<State>, i: nat, j: nat)
    requires History(states) && i <= j < |states| && states[i].revision == states[j].revision
    ensures states[i] == states[j]
  {
    hide Flatten, Source;
    if i < j {
      RevisionsGrow(states, i, j - 1);
      assert Valid(states[j - 1]) && Stamped(states[j - 1], states[j - 1 + 1]);
      RevisionIdentifies(states, i, j - 1);
    }
  }

  // ----- The new content, told from the response -----

  /** Node `i` of a list is the last one with this id; -1 if there is none. */
  predicate IsLastNode(nodes: seq<Node>, id: int, i: int) {
    && -1 <= i < |nodes| && (i >= 0 ==> nodes[i].id == id)
    && forall j :: i < j < |nodes| ==> nodes[j].id != id
  }

  lemma {:induction false} InsertedMeaning(peers: map<int, Node>, nodes: seq<Node>, n: nat, id: int, i: int)
    requires n <= |nodes| && IsLastNode(nodes[..n], id, i)
    ensures var after := Inserted(peers, nodes, n);
            if i >= 0 then id in after && after[id] == nodes[i]
            else (id in after <==> id in peers) && (id in peers ==> after[id] == peers[id])
  {
    if n != 0 && i != n - 1 {
      assert nodes[..n][n - 1].id != id;
      assert forall j :: 0 <= j < n - 1 ==> nodes[..n - 1][j] == nodes[..n][j];
      InsertedMeaning(peers, nodes, n - 1, id, i);
    }
  }

  /**
   * A peer is listed as it was changed last, else as the full list has it, else as it was known.
   * A full list drops what it does not have, and removal drops a peer whatever else is said of it.
   */
  lemma ListedMeaning(peers: map<int, Node>, r: Response, id: int, i: int, j: int)
    requires IsLastNode(r.peersChanged, id, j)
    requires if r.peers.Some? then IsLastNode(r.peers.value, id, i) else i == -1
    ensures var after := Listed(peers, r);
            if id in r.peersRemoved then id !in after
            else if j >= 0 then id in after && after[id] == r.peersChanged[j]
            else if i >= 0 then id in after && r.peers.Some? && after[id] == r.peers.value[i]
            else if r.peers.Some? then id !in after
            else (id in after <==> id in peers) && (id in peers ==> after[id] == peers[id])
  {
    hide Inserted;
    assert r.peersChanged[..|r.peersChanged|] == r.peersChanged;
    if r.peers.Some? {
      assert r.peers.value[..|r.peers.value|] == r.peers.value;
      InsertedMeaning(map[], r.peers.value, |r.peers.value|, id, i);
    }
    var full := if r.peers.Some? then Inserted(map[], r.peers.value, |r.peers.value|) else peers;
    InsertedMeaning(full, r.peersChanged, |r.peersChanged|, id, j);
  }

  /** Patch `i` is the last for this node that carries the field; -1 if there is none. */
  ghost predicate IsLastPatch<T>(patches: seq<Patch>, id: int, carried: Patch -> Option<T>, i: int) {
    && -1 <= i < |patches| && (i >= 0 ==> patches[i].id == id && carried(patches[i]).Some?)
    && forall j :: i < j < |patches| ==> !(patches[j].id == id && carried(patches[j]).Some?)
  }

  /** Of a known peer, the last patch that carries a field sets it; without one it stays. */
  ghost predicate FieldPatched<T>(peers: map<int, Node>, patches: seq<Patch>, n: nat, id: int,
                                  carried: Patch -> Option<T>, field: Node -> T, i: int)
    requires n <= |patches| && id in peers && -1 <= i < n
  {
    var after := Patched(peers, patches, n);
    id in after &&
    if i >= 0 then carried(patches[i]) == Some(field(after[id])) else field(after[id]) == field(peers[id])
  }

  lemma {:induction false} FieldMeaning<T>(peers: map<int, Node>, patches: seq<Patch>, n: nat, id: int,
                                           carried: Patch -> Option<T>, field: Node -> T, i: int)
    requires n <= |patches| && id in peers && IsLastPatch(patches[..n], id, carried, i)
    requires forall p: Patch, m: Node :: field(p.Apply(m)) == if carried(p).Some? then carried(p).value else field(m)
    ensures FieldPatched(peers, patches, n, id, carried, field, i)
  {
    if n != 0 {
      PatchedKeys(peers, patches, n - 1);
      assert patches[..n][n - 1] == patches[n - 1];
      if i != n - 1 {
        assert forall j :: 0 <= j < n - 1 ==> patches[..n - 1][j] == patches[..n][j];
        FieldMeaning(peers, patches, n - 1, id, carried, field, i);
      }
    }
  }

  lemma {:induction false} PatchedKeys(peers: map<int, Node>, patches: seq<Patch>, n: nat)
    requires n <= |patches|
    ensures Patched(peers, patches, n).Keys == peers.Keys
  {
    if n != 0 {
      PatchedKeys(peers, patches, n - 1);
    }
  }

  /** Keys, disco keys and endpoints after the patches of a response. */
  lemma PatchedMeaning(peers: map<int, Node>, patches: seq<Patch>, id: int, k: int, d: int, e: int)
    requires id in peers
    requires IsLastPatch(patches, id, (p: Patch) => p.key, k)
    requires IsLastPatch(patches, id, (p: Patch) => p.discoKey, d)
    requires IsLastPatch(patches, id, (p: Patch) => p.endpoints, e)
    ensures FieldPatched(peers, patches, |patches|, id, (p: Patch) => p.key, (n: Node) => n.key, k)
    ensures FieldPatched(peers, patches, |patches|, id, (p: Patch) => p.discoKey, (n: Node) => n.discoKey, d)
    ensures FieldPatched(peers, patches, |patches|, id, (p: Patch) => p.endpoints, (n: Node) => n.endpoints, e)
  {
    hide FieldPatched, IsLastPatch;
    assert patches[..|patches|] == patches;
    FieldMeaning(peers, patches, |patches|, id, (p: Patch) => p.key, (n: Node) => n.key, k);
    FieldMeaning(peers, patches, |patches|, id, (p: Patch) => p.discoKey, (n: Node) => n.discoKey, d);
    FieldMeaning(peers, patches, |patches|, id, (p: Patch) => p.endpoints, (n: Node) => n.endpoints, e);
  }

  /** Sightings and flags of the response win over its patches; expiry comes last. */
  lemma TouchedMeaning(peers: map<int, Node>, r: Response, now: Time, expiryNow: Time, id: int)
    requires id in peers
    ensures var p, t := Patched(peers, r.patches, |r.patches|), Touched(peers, r, now, expiryNow);
            && t.Keys == peers.Keys && id in p
            && (id in r.seen && r.seen[id] ==> t[id].lastSeen == Some(now))
            && (id in r.seen && !r.seen[id] ==> t[id].lastSeen == None)
            && (id !in r.seen ==> t[id].lastSeen == p[id].lastSeen)
            && (id in r.online ==> t[id].online == Some(r.online[id]))
            && (id !in r.online ==> t[id].online == p[id].online)
            && (t[id].expired <==> p[id].expired || (p[id].keyExpiry.Some? && p[id].keyExpiry.value <= expiryNow))
            && t[id] == p[id].(lastSeen := t[id].lastSeen, online := t[id].online, expired := t[id].expired)
  {
    hide Patched;
    PatchedKeys(peers, r.patches, |r.patches|);
  }

  /** A keepalive says nothing about the network. */
  lemma KeepAliveMeaning(r: Response)
    ensures r.keepAlive ==>
              var e := r.Effective();
              && e.node == None && e.peers == None && e.peersChanged == [] && e.peersRemoved == [] && e.patches == []
              && e.seen == map[] && e.online == map[]
              && e.dns == None && e.packetFilter == None && e.packetFilters == None
    ensures !r.keepAlive ==> r.Effective() == r
  {
  }

  /**
   * A name in the update is set or, without rules, removed. All other names go with a "*" without
   * rules; else "base" is the plain packet filter, if there is one, and the rest stays.
   */
  lemma NamedMeaning(named: map<string, Rules>, r: Response, name: string)
    requires name != "*"
    ensures var after := NamedAfter(named, r);
            var update := if r.packetFilters.Some? then r.packetFilters.value else map[];
            if name in update && update[name].Some? then name in after && after[name] == update[name].value
            else if name in update then name !in after
            else if "*" in update && update["*"].None? then name !in after
            else if name == "base" && r.packetFilter.Some? then name in after && after[name] == r.packetFilter.value
            else (name in after <==> name in named) && (name in named ==> after[name] == named[name])
  {
  }

  // ----- The flattened filters, told by name -----

  function Before(named: map<string, Rules>, name: string): map<string, Rules> {
    map n | n in named && StringLe(n, name) && n != name :: named[n]
  }

  function After(named: map<string, Rules>, name: string): map<string, Rules> {
    map n | n in named && StringLe(name, n) && n != name :: named[n]
  }

  /** The rules of a filter come after those of all filters with lesser names and before those with greater ones. */
  lemma FlattenMeaning(named: map<string, Rules>, name: string)
    requires name in named
    ensures Flatten(named) == Flatten(Before(named, name)) + named[name] + Flatten(After(named, name))
  {
    hide StringLe, Concatenated, Lists, TotalOrder;
    StringOrder();
    var low, high := ListOf(Before(named, name).Keys, StringLe), ListOf(After(named, name).Keys, StringLe);
    AroundName(named, name);
    NamesIn(Before(named, name), named, low);
    NamesIn(After(named, name), named, high);
    hide Before, After;
    Sublist(low, named, Before(named, name), |low|);
    Sublist(high, named, After(named, name), |high|);
    ThreeParts(low, name, high, named);
  }

  lemma ThreeParts(low: seq<string>, name: string, high: seq<string>, named: map<string, Rules>)
    requires forall i :: 0 <= i < |low| ==> low[i] in named
    requires forall i :: 0 <= i < |high| ==> high[i] in named
    requires name in named
    ensures forall i :: 0 <= i < |low + [name] + high| ==> (low + [name] + high)[i] in named
    ensures Concatenated(low + [name] + high, named, |low + [name] + high|) ==
            Concatenated(low, named, |low|) + named[name] + Concatenated(high, named, |high|)
  {
    hide Concatenated;
    ConcatNames(low + [name], high, named, |high|);
    ConcatNames(low, [name], named, 1);
    OneName(name, named);
  }

  lemma FlattenNothing()
    ensures Flatten(map[]) == []
  {
  }

  lemma OneName(name: string, named: map<string, Rules>)
    requires name in named
    ensures Concatenated([name], named, 1) == named[name]
  {
    assert Concatenated([name], named, 0) == [];
  }

  lemma AroundName(named: map<string, Rules>, name: string)
    requires name in named && TotalOrder(StringLe)
    ensures ListOf(named.Keys, StringLe) ==
            ListOf(Before(named, name).Keys, StringLe) + [name] + ListOf(After(named, name).Keys, StringLe)
  {
    hide StringLe;
    hide TotalOrder;
    ListAround(named.Keys, name, Before(named, name).Keys, After(named, name).Keys, StringLe);
  }

  /** Names listed of a part of the filters are names of all of them. */
  lemma NamesIn(part: map<string, Rules>, named: map<string, Rules>, names: seq<string>)
    requires Lists(names, part.Keys, StringLe) && forall n :: n in part ==> n in named && part[n] == named[n]
    ensures forall i :: 0 <= i < |names| ==> names[i] in part && names[i] in named && part[names[i]] == named[names[i]]
  {
    hide StringLe;
    forall i | 0 <= i < |names| ensures names[i] in part {
      assert names[i] in part.Keys;
    }
  }

  /** The same names give the same rules in a part of the filters. */
  lemma {:induction false} Sublist(names: seq<string>, named: map<string, Rules>, part: map<string, Rules>, n: nat)
    requires n <= |names|
    requires forall i :: 0 <= i < |names| ==>
               names[i] in part && names[i] in named && part[names[i]] == named[names[i]]
    ensures Concatenated(names, part, n) == Concatenated(names, named, n)
  {
    if n != 0 {
      Sublist(names, named, part, n - 1);
    }
  }

  lemma {:induction false} ConcatNames(a: seq<string>, b: seq<string>, named: map<string, Rules>, n: nat)
    requires n <= |b| && (forall i :: 0 <= i < |a| ==> a[i] in named) && (forall i :: 0 <= i < |b| ==> b[i] in named)
    ensures Concatenated(a + b, named, |a| + n) == Concatenated(a, named, |a|) + Concatenated(b, named, n)
  {
    hide Concatenated;
    if n == 0 {
      PrefixNames(a, b, named, |a|);
      ConcatNone(b, named);
    } else {
      ConcatNames(a, b, named, n - 1);
      ConcatStep(a + b, named, |a| + n);
      ConcatStep(b, named, n);
      assert (a + b)[|a| + n - 1] == b[n - 1];
      assert Concatenated(a, named, |a|) + (Concatenated(b, named, n - 1) + named[b[n - 1]])
             == Concatenated(a, named, |a|) + Concatenated(b, named, n - 1) + named[b[n - 1]];
    }
  }

  lemma ConcatNone(names: seq<string>, named: map<string, Rules>)
    requires forall i :: 0 <= i < |names| ==> names[i] in named
    ensures Concatenated(names, named, 0) == []
  {
  }

  lemma ConcatStep(names: seq<string>, named: map<string, Rules>, n: nat)
    requires 0 < n <= |names| && forall i :: 0 <= i < |names| ==> names[i] in named
    ensures Concatenated(names, named, n) == Concatenated(names, named, n - 1) + named[names[n - 1]]
  {
  }

  lemma {:induction false} PrefixNames(a: seq<string>, b: seq<string>, named: map<string, Rules>, n: nat)
    requires n <= |a| && (forall i :: 0 <= i < |a| ==> a[i] in named) && (forall i :: 0 <= i < |b| ==> b[i] in named)
    ensures Concatenated(a + b, named, n) == Concatenated(a, named, n)
  {
    if n != 0 {
      PrefixNames(a, b, named, n - 1);
    }
  }

  // ----- The DNS view, told record by record -----

  /** The record of one address of a named node: A for IPv4, AAAA for IPv6. */
  predicate IsNodeRecord(r: DnsRecord, name: string, prefix: Prefix, text: Addr -> string) {
    && name != "" && r.name == name && r.value == text(Plain(prefix.addr))
    && r.kind == (if Plain(prefix.addr).width == 128 then "AAAA" else "A")
  }

  ghost predicate HasNodeRecord(r: DnsRecord, name: string, addresses: seq<Prefix>, text: Addr -> string) {
    exists i :: 0 <= i < |addresses| && IsNodeRecord(r, name, addresses[i], text)
  }

  lemma NodeRecordsMeaning(r: DnsRecord, name: string, addresses: seq<Prefix>, text: Addr -> string)
    ensures r in NodeRecords(name, addresses, text) <==> HasNodeRecord(r, name, addresses, text)
  {
    forall i | 0 <= i < |addresses|
      ensures name != "" ==> (r == NodeRecord(name, addresses[i], text) <==> IsNodeRecord(r, name, addresses[i], text))
    {
      UnmapMeaning(addresses[i].addr);
    }
  }

  ghost predicate IsExtra(s: State, r: DnsRecord, how: Rendering) {
    s.dns.Some? && exists i :: 0 <= i < |s.dns.value.extraRecords| && r == how.canonical(s.dns.value.extraRecords[i])
  }

  /** A record is shown if it is an extra one, or one of the node itself or of a peer. */
  lemma ViewMeaning(s: State, how: Rendering, r: DnsRecord)
    ensures r in View(Source(s), how).records <==>
            || IsExtra(s, r, how)
            || (s.self.Some? && HasNodeRecord(r, s.self.value.name, s.self.value.addresses, how.text))
            || exists id :: id in s.peers && HasNodeRecord(r, s.peers[id].name, s.peers[id].addresses, how.text)
    ensures View(Source(s), how).settings == if s.dns.Some? then Some(s.dns.value.settings) else None
  {
    hide NodeRecords, HasNodeRecord;
    var source := Source(s);
    var extra := if s.dns.Some? then s.dns.value.extraRecords else [];
    var shown := set i | 0 <= i < |extra| :: how.canonical(extra[i]);
    assert r in shown <==> IsExtra(s, r, how);
    if s.self.Some? {
      NodeRecordsMeaning(r, s.self.value.name, s.self.value.addresses, how.text);
    } else {
      NamelessHasNone(how.text);
    }
    forall id | id in s.peers
      ensures r in NodeRecords(s.peers[id].name, s.peers[id].addresses, how.text) <==>
              HasNodeRecord(r, s.peers[id].name, s.peers[id].addresses, how.text)
    {
      NodeRecordsMeaning(r, s.peers[id].name, s.peers[id].addresses, how.text);
    }
    PeerRecordsMeaning(s.peers, how.text, r);
  }

  lemma PeerRecordsMeaning(peers: map<int, Node>, text: Addr -> string, r: DnsRecord)
    ensures r in PeerRecords(Names(peers), Names(peers).Keys, text) <==>
            exists id :: id in peers && r in NodeRecords(peers[id].name, peers[id].addresses, text)
  {
    hide NodeRecords;
    if id :| id in peers && r in NodeRecords(peers[id].name, peers[id].addresses, text) {
      assert id in Names(peers) && r in NodeRecords(Names(peers)[id].0, Names(peers)[id].1, text);
    }
  }

  // ----- The client -----

  /** Patches, sightings and expiry leave every name and address as it is. */
  lemma TouchedKeepsNames(peers: map<int, Node>, r: Response, now: Time, expiryNow: Time)
    ensures Names(Touched(peers, r, now, expiryNow)) == Names(peers)
  {
    PatchedKeepsNames(peers, r.patches, |r.patches|);
    var patched := Patched(peers, r.patches, |r.patches|);
    forall id | id in patched
      ensures id in peers && patched[id].name == peers[id].name && patched[id].addresses == peers[id].addresses
    {
      assert id in Names(patched) && id in Names(peers);
    }
    assert Names(Touched(peers, r, now, expiryNow)).Keys == Names(patched).Keys;
  }

  lemma {:induction false} PatchedKeepsNames(peers: map<int, Node>, patches: seq<Patch>, n: nat)
    requires n <= |patches|
    ensures Names(Patched(peers, patches, n)) == Names(peers)
  {
    if n != 0 {
      PatchedKeepsNames(peers, patches, n - 1);
      var before, p := Patched(peers, patches, n - 1), patches[n - 1];
      if p.id in before {
        assert Names(before[p.id := p.Apply(before[p.id])]) == Names(before);
      }
    }
  }

  class Client {
    const nodeKey: NodeKey
    var self: Option<Node>
    var peers: map<int, Node>
    var dns: Option<DnsConfig>
    var named: map<string, Rules>
    var filters: Rules
    var revision: nat
    var dnsRevision: nat
    var aclRevision: nat

    ghost function Contents(): State
      reads this
    {
      State(self, peers, dns, named, filters, revision, dnsRevision, aclRevision)
    }

    constructor (nodeKey: NodeKey)
      ensures this.nodeKey == nodeKey && Valid(Contents())
      ensures Contents() == State(None, map[], None, map[], [], 0, 0, 0)
    {
      this.nodeKey := nodeKey;
      self, peers, dns, named, filters := None, map[], None, map[], [];
      revision, dnsRevision, aclRevision := 0, 0, 0;
    }

    /** A change that the views do not show. */
    method Bump()
      requires Valid(Contents())
      modifies this`revision
      ensures Valid(Contents()) && Stamped(old(Contents()), Contents()) && revision == old(revision) + 1
    {
      hide Flatten;
      revision := revision + 1;
    }

    /** `changed` is exact as long as no node comes twice with different content. */
    method InsertNodes(nodes: seq<Node>) returns (changed: bool)
      modifies this`peers
      ensures peers == Inserted(old(peers), nodes, |nodes|)
      ensures !changed ==> peers == old(peers)
    {
      changed := false;
      for i := 0 to |nodes|
        invariant peers == Inserted(old(peers), nodes, i)
        invariant !changed ==> peers == old(peers)
      {
        if !(nodes[i].id in peers && peers[nodes[i].id] == nodes[i]) {
          peers := peers[nodes[i].id := nodes[i]];
          changed := true;
        } else {
          assert peers[nodes[i].id := nodes[i]] == peers;
        }
      }
    }

    method ReplaceNodes(nodes: seq<Node>) returns (changed: bool)
      modifies this`peers
      ensures peers == Inserted(map[], nodes, |nodes|) && (changed <==> peers != old(peers))
    {
      var next := map[];
      for i := 0 to |nodes|
        invariant next == Inserted(map[], nodes, i) && peers == old(peers)
      {
        next := next[nodes[i].id := nodes[i]];
      }
      changed := peers != next;
      if changed {
        peers := next;
      }
    }

    method RemoveNodes(ids: seq<int>) returns (changed: bool)
      modifies this`peers
      ensures peers == old(peers) - (set i | 0 <= i < |ids| :: ids[i])
      ensures changed <==> peers != old(peers)
    {
      changed := false;
      for i := 0 to |ids|
        invariant peers == old(peers) - (set j | 0 <= j < i :: ids[j])
        invariant changed <==> peers != old(peers)
      {
        if ids[i] in peers {
          peers := peers - {ids[i]};
          changed := true;
          assert ids[i] in old(peers);
        }
      }
    }

    method PatchNodes(patches: seq<Patch>) returns (changed: bool)
      modifies this`peers
      ensures peers == Patched(old(peers), patches, |patches|)
      ensures !changed ==> peers == old(peers)
    {
      changed := false;
      for i := 0 to |patches|
        invariant peers == Patched(old(peers), patches, i)
        invariant !changed ==> peers == old(peers)
      {
        var id := patches[i].id;
        if id in peers {
          var before := peers[id];
          assert peers[id := before] == peers;
          peers := peers[id := patches[i].Apply(before)];
          changed := changed || peers[id] != before;
        }
      }
    }

    method MarkSeen(seen: map<int, bool>, now: Time) returns (changed: bool)
      modifies this`peers
      ensures peers == map id | id in old(peers) :: SeenNode(old(peers)[id], seen, id, now)
      ensures !changed ==> peers == old(peers)
    {
      changed := false;
      var todo := seen.Keys;
      while todo != {}
        invariant todo <= seen.Keys && peers.Keys == old(peers).Keys
        invariant forall id :: id in peers ==>
          peers[id] == if id in todo then old(peers)[id] else SeenNode(old(peers)[id], seen, id, now)
        invariant !changed ==> peers == old(peers)
      {
        var id := Sets.Pick(todo);
        todo := todo - {id};
        if id in peers {
          if seen[id] {
            peers := peers[id := peers[id].(lastSeen := Some(now))];
            changed := true;
          } else if peers[id].lastSeen.Some? {
            peers := peers[id := peers[id].(lastSeen := None)];
            changed := true;
          }
        }
      }
    }

    method MarkOnline(online: map<int, bool>) returns (changed: bool)
      modifies this`peers
      ensures peers == map id | id in old(peers) :: OnlineNode(old(peers)[id], online, id)
      ensures !changed ==> peers == old(peers)
    {
      changed := false;
      var todo := online.Keys;
      while todo != {}
        invariant todo <= online.Keys && peers.Keys == old(peers).Keys
        invariant forall id :: id in peers ==>
          peers[id] == if id in todo then old(peers)[id] else OnlineNode(old(peers)[id], online, id)
        invariant !changed ==> peers == old(peers)
      {
        var id := Sets.Pick(todo);
        todo := todo - {id};
        if id in peers {
          if peers[id].online != Some(online[id]) {
            peers := peers[id := peers[id].(online := Some(online[id]))];
            changed := true;
          }
        }
      }
    }

    method ExpireNodes(now: Time) returns (changed: bool)
      modifies this`peers
      ensures peers == map id | id in old(peers) :: old(peers)[id].Expire(now)
      ensures !changed ==> peers == old(peers)
    {
      changed := false;
      var todo := peers.Keys;
      while todo != {}
        invariant todo <= peers.Keys == old(peers).Keys
        invariant forall id :: id in peers ==>
          peers[id] == if id in todo then old(peers)[id] else old(peers)[id].Expire(now)
        invariant !changed ==> peers == old(peers)
      {
        var id := Sets.Pick(todo);
        todo := todo - {id};
        var next := peers[id].Expire(now);
        if next != peers[id] {
          peers := peers[id := next];
          changed := true;
        }
      }
      assert forall id :: id in peers ==> peers[id] == old(peers)[id].Expire(now);
    }

    method EditFilters(update: map<string, Option<Rules>>) returns (changed: bool)
      modifies this`named
      ensures named == Overlaid(old(named), update)
      ensures !changed ==> named == old(named)
    {
      hide Edited;
      changed := false;
      if "*" in update && update["*"].None? && named != map[] {
        named := map[];
        changed := true;
      }
      ghost var kept := named;
      var todo := update.Keys;
      NoneEdited(kept, update);
      while todo != {}
        invariant todo <= update.Keys
        invariant named == Edited(kept, update, update.Keys - todo)
        invariant !changed ==> named == old(named)
      {
        var name := Sets.Pick(todo);
        ghost var done := update.Keys - todo;
        OneEdited(kept, update, done, name);
        todo := todo - {name};
        assert update.Keys - todo == done + {name};
        if name == "*" {
          continue;
        }
        if update[name].None? {
          if name in named {
            named := named - {name};
            changed := true;
          } else {
            assert named - {name} == named;
          }
        } else if !(name in named && named[name] == update[name].value) {
          named := named[name := update[name].value];
          changed := true;
        } else {
          assert named[name := update[name].value] == named;
        }
      }
      assert update.Keys - todo == update.Keys;
    }

    /** The parts of a response that give peers their names and addresses. */
    method ApplyNodes(r: Response) returns (changed: bool)
      modifies this`self, this`peers
      ensures self == (if r.node.Some? then r.node else old(self)) && peers == Listed(old(peers), r)
      ensures !changed ==> self == old(self) && peers == old(peers)
    {
      hide Inserted;
      changed := false;
      if r.node.Some? && self != r.node {
        self := r.node;
        changed := true;
      }
      if r.peers.Some? {
        var replaced := ReplaceNodes(r.peers.value);
        changed := changed || replaced;
      }
      var inserted := InsertNodes(r.peersChanged);
      var removed := RemoveNodes(r.peersRemoved);
      changed := changed || inserted || removed;
    }

    /** The parts of a response that do not; expiry applies to all peers. */
    method TouchNodes(r: Response, now: Time, expiryNow: Time) returns (changed: bool)
      modifies this`peers
      ensures peers == Touched(old(peers), r, now, expiryNow)
      ensures !changed ==> peers == old(peers)
    {
      hide Patched;
      var patched := PatchNodes(r.patches);
      var seen := MarkSeen(r.seen, now);
      var online := MarkOnline(r.online);
      var expired := ExpireNodes(expiryNow);
      changed := patched || seen || online || expired;
    }

    method ApplyFilters(r: Response) returns (changed: bool)
      modifies this`named, this`filters
      requires filters == Flatten(named)
      ensures named == NamedAfter(old(named), r) && filters == Flatten(named)
      ensures !changed ==> named == old(named)
    {
      hide Flatten, Overlaid;
      changed := false;
      if r.packetFilter.Some? {
        if !("base" in named && named["base"] == r.packetFilter.value) {
          named := named["base" := r.packetFilter.value];
          changed := true;
        } else {
          assert named["base" := r.packetFilter.value] == named;
        }
      }
      if r.packetFilters.Some? {
        var edited := EditFilters(r.packetFilters.value);
        changed := changed || edited;
      }
      if changed {
        filters := FlattenFilters(named);
      }
    }

    /** `applyMapResponse`; `false` is the node key mismatch, which changes nothing. */
    method Apply(response: Response, now: Time, expiryNow: Time) returns (ok: bool)
      requires Valid(Contents())
      modifies this
      ensures Valid(Contents()) && Stamped(old(Contents()), Contents())
      ensures var r := response.Effective();
              && (ok <==> r.node.None? || nodeKey == 0 || r.node.value.key == nodeKey)
              && (!ok ==> Contents() == old(Contents()))
              && (ok ==>
                    && (r.node.Some? ==> self == Some(r.node.value.Expire(expiryNow)))
                    && (r.node.None? && old(self).Some? ==> self == Some(old(self).value.Expire(expiryNow)))
                    && (r.node.None? && old(self).None? ==> self == None)
                    && peers == Touched(Listed(old(peers), r), r, now, expiryNow)
                    && dns == (if r.dns.Some? then r.dns else old(dns))
                    && named == NamedAfter(old(named), r))
    {
      hide Flatten, Listed, Touched, NamedAfter, Names, SelfName;
      var r := response.Effective();
      if r.node.Some? && nodeKey != 0 && r.node.value.key != nodeKey {
        return false;
      }
      ok := true;
      var listed := ApplyNodes(r);
      TouchedKeepsNames(peers, r, now, expiryNow);
      var touched := TouchNodes(r, now, expiryNow);
      var dnsChanged := r.dns.Some? && dns != r.dns;
      if dnsChanged {
        dns := r.dns;
      }
      var aclChanged := ApplyFilters(r);
      var selfExpired := ExpiredSelf(self, expiryNow) != self;
      ExpiredKeepsName(self, expiryNow);
      self := ExpiredSelf(self, expiryNow);
      if r.metadata || listed || touched || dnsChanged || aclChanged || selfExpired {
        revision := revision + 1;
        if listed || dnsChanged {
          dnsRevision := revision;
        }
        if aclChanged {
          aclRevision := revision;
        }
      }
    }

    /** `dnsViewLocked`, before the records are sorted and compacted. */
    method TakeDnsView(how: Rendering) returns (settings: Option<DnsSettings>, records: seq<DnsRecord>)
      ensures DnsView(settings, set r | r in records) == View(Source(Contents()), how)
    {
      hide NodeRecords, NodeRecord, PeerRecords, Names;
      settings, records := None, [];
      ghost var extra := if dns.Some? then dns.value.extraRecords else [];
      if dns.Some? {
        settings := Some(dns.value.settings);
        for i := 0 to |dns.value.extraRecords|
          invariant |records| == i && forall j :: 0 <= j < i ==> records[j] == how.canonical(extra[j])
        {
          records := records + [how.canonical(dns.value.extraRecords[i])];
        }
      }
      ghost var canonical := set i | 0 <= i < |extra| :: how.canonical(extra[i]);
      assert (set r | r in records) == canonical;
      if self.Some? {
        var own := RecordsOf(self.value.name, self.value.addresses, how.text);
        records := records + own;
      } else {
        NamelessHasNone(how.text);
      }
      var others := RecordsOfPeers(how.text);
      records := records + others;
    }

    method RecordsOfPeers(text: Addr -> string) returns (records: seq<DnsRecord>)
      ensures (set r | r in records) == PeerRecords(Names(peers), Names(peers).Keys, text)
    {
      hide NodeRecords, PeerRecords;
      records := [];
      var todo := peers.Keys;
      ghost var names := Names(peers);
      assert names.Keys - todo == {};
      NoPeerRecords(names, text);
      while todo != {}
        invariant todo <= peers.Keys
        invariant (set r | r in records) == PeerRecords(names, names.Keys - todo, text)
      {
        var id := Sets.Pick(todo);
        ghost var done := names.Keys - todo;
        todo := todo - {id};
        MorePeerRecords(names, done, id, text);
        assert names.Keys - todo == done + {id};
        var more := RecordsOf(peers[id].name, peers[id].addresses, text);
        records := records + more;
      }
      assert names.Keys - todo == names.Keys;
    }
  }

  lemma NoPeerRecords(names: NameMap, text: Addr -> string)
    ensures PeerRecords(names, {}, text) == {}
  {
  }

  lemma MorePeerRecords(names: NameMap, ids: set<int>, id: int, text: Addr -> string)
    requires ids <= names.Keys && id in names
    ensures PeerRecords(names, ids + {id}, text) ==
            PeerRecords(names, ids, text) + NodeRecords(names[id].0, names[id].1, text)
  {
    hide NodeRecords;
  }

  lemma NamelessHasNone(text: Addr -> string)
    ensures NodeRecords("", [], text) == {}
  {
  }

  method RecordsOf(name: string, addresses: seq<Prefix>, text: Addr -> string) returns (records: seq<DnsRecord>)
    ensures (set r | r in records) == NodeRecords(name, addresses, text)
  {
    records := [];
    if name == "" {
      return;
    }
    for i := 0 to |addresses|
      invariant |records| == i && forall j :: 0 <= j < i ==> records[j] == NodeRecord(name, addresses[j], text)
    {
      records := records + [NodeRecord(name, addresses[i], text)];
    }
  }

  lemma NoneEdited(kept: map<string, Rules>, update: map<string, Option<Rules>>)
    ensures Edited(kept, update, update.Keys - update.Keys) == kept
  {
  }

  lemma OneEdited(kept: map<string, Rules>, update: map<string, Option<Rules>>, done: set<string>, name: string)
    requires done <= update.Keys && name in update
    ensures var before, after := Edited(kept, update, done), Edited(kept, update, done + {name});
            after ==
            if name == "*" then before
            else if update[name].None? then before - {name}
            else before[name := update[name].value]
  {
  }
}
