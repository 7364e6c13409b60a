/**
 * The peer tables of the transport (`internal/tailnet/bind.go`, `internal/tailnet/disco.go`):
 * each peer's configured and learned addresses and its direct address, with the two indexes that
 * must agree with them. This module holds the tables as values and what each operation does.
 */
module PeerIndex {
  import opened Addresses
  import opened Ordering

  /** Keys are numbers; 0 is the zero key. */
  type NodeKey = nat
  type DiscoKey = nat
  type Time = int
  /** Which peer an address belongs to. */
  type AddrIndex = map<AddrPort, NodeKey>

  const MAX_ENDPOINTS := 256
  const MAX_LEARNED := 256
  const CANDIDATE_LIFETIME: Time := 120_000_000_000

  datatype AddrPort = AddrPort(addr: Addr, port: nat) {
    predicate IsValid() {
      addr != INVALID_ADDR
    }

    function Unmap(): AddrPort {
      if IsValid() then AddrPort(addr.Unmap(), port) else this
    }

    predicate IsUnmapped() {
      !addr.Is4In6()
    }
  }

  const NO_ADDR := AddrPort(INVALID_ADDR, 0)

  /** Neither unspecified nor multicast, with a port. */
  predicate Usable(a: AddrPort) {
    && a.IsValid() && a.port != 0 && a.addr.value != 0
    && !(a.addr.width == 32 && a.addr.value / 0x1000_0000 == 0xe)
    && !(a.addr.width == 128 && a.addr.value / 0x1_0000_0000_0000_0000_0000_0000_0000_00 == 0xff)
  }

  /** Which addresses are usable: not 0.0.0.0, ::, 224.0.0.0/4 or ff00::/8, and with a port. */
  lemma UsableMeaning(a: AddrPort)
    requires a.addr.width == 32 || a.addr.width == 128
    requires a.addr.width == 32 ==> a.addr.value <= 0xffff_ffff
    requires a.addr.width == 128 ==> a.addr.value <= 0xffff_ffff_ffff_ffff_ffff_ffff_ffff_ffff
    ensures Usable(a) <==>
            && a.port > 0 && a.addr.value > 0
            && (a.addr.width == 32 ==> a.addr.value < 0xe000_0000 || a.addr.value > 0xefff_ffff)
            && (a.addr.width == 128 ==> a.addr.value < 0xff00_0000_0000_0000_0000_0000_0000_0000)
  {
  }

  /** `netip.AddrPort.Compare`. */
  predicate AddrPortLe(a: AddrPort, b: AddrPort) {
    var c := a.addr.Compare(b.addr);
    c < 0 || (c == 0 && a.port <= b.port)
  }

  /** IPv4 before IPv6, then by address, then by port. */
  lemma AddrPortLeMeaning(a: AddrPort, b: AddrPort)
    ensures a.addr.width < b.addr.width ==> AddrPortLe(a, b) && !AddrPortLe(b, a)
    ensures a.addr.width == b.addr.width && a.addr.value < b.addr.value ==> AddrPortLe(a, b) && !AddrPortLe(b, a)
    ensures a.addr == b.addr ==> (AddrPortLe(a, b) <==> a.port <= b.port)
  {
  }

  lemma AddrPortOrder()
    ensures TotalOrder(AddrPortLe)
  {
  }

  datatype PeerConfig = PeerConfig(
    nodeKey: NodeKey, discoKey: DiscoKey, endpoints: seq<AddrPort>, homeDERP: int, wireGuardOnly: bool)

  datatype PeerState = PeerState(
    config: PeerConfig, candidates: seq<AddrPort>, learned: map<AddrPort, Time>, direct: AddrPort)

  const NO_PEER := PeerState(PeerConfig(0, 0, [], 0, false), [], map[], NO_ADDR)

  datatype Tables = Tables(
    peers: map<NodeKey, PeerState>, byDisco: map<DiscoKey, NodeKey>, byAddr: AddrIndex)

  const NO_TABLES := Tables(map[], map[], map[])

  // ----- Configured endpoints -----

  /** The endpoints kept of the first `n`: usable, unmapped, each once, at most 256. */
  function Sanitize(endpoints: seq<AddrPort>, n: nat): (kept: seq<AddrPort>)
    requires n <= |endpoints|
    ensures |kept| <= MAX_ENDPOINTS
  {
    if n == 0 then []
    else
      var kept := Sanitize(endpoints, n - 1);
      var e := AddrPort(endpoints[n - 1].addr.Unmap(), endpoints[n - 1].port);
      if |kept| >= MAX_ENDPOINTS || !Usable(e) || e in kept then kept else kept + [e]
  }

  ghost predicate Clean(endpoints: seq<AddrPort>) {
    && |endpoints| <= MAX_ENDPOINTS
    && (forall i :: 0 <= i < |endpoints| ==> Usable(endpoints[i]) && endpoints[i].IsUnmapped())
    && (forall i, j :: 0 <= i < j < |endpoints| ==> endpoints[i] != endpoints[j])
  }

  lemma UnmapTwice(a: Addr)
    ensures !a.Unmap().Is4In6()
  {
  }

  /** Sanitizing keeps clean endpoints only, and drops a usable one only for lack of room. */
  lemma {:induction false} SanitizeClean(endpoints: seq<AddrPort>, n: nat)
    requires n <= |endpoints|
    ensures Clean(Sanitize(endpoints, n))
    ensures |Sanitize(endpoints, n)| < MAX_ENDPOINTS ==>
              forall i :: 0 <= i < n ==>
                var e := AddrPort(endpoints[i].addr.Unmap(), endpoints[i].port);
                Usable(e) ==> e in Sanitize(endpoints, n)
  {
    hide Usable;
    if n != 0 {
      SanitizeClean(endpoints, n - 1);
      UnmapTwice(endpoints[n - 1].addr);
    }
  }

  method SanitizeEndpoints(endpoints: seq<AddrPort>) returns (result: seq<AddrPort>)
    ensures result == Sanitize(endpoints, |endpoints|)
  {
    hide Usable;
    result := [];
    var seen: set<AddrPort> := {};
    for i := 0 to |endpoints|
      invariant result == Sanitize(endpoints, i) && |result| < MAX_ENDPOINTS
      invariant seen == set e | e in result
    {
      var endpoint := AddrPort(endpoints[i].addr.Unmap(), endpoints[i].port);
      if !Usable(endpoint) || endpoint in seen {
        continue;
      }
      seen := seen + {endpoint};
      result := result + [endpoint];
      if |result| >= MAX_ENDPOINTS {
        SanitizeFull(endpoints, i + 1, |endpoints|);
        return;
      }
    }
  }

  /** Endpoints keep their order: what more endpoints add comes last. */
  lemma {:induction false} SanitizeOrder(endpoints: seq<AddrPort>, m: nat, n: nat)
    requires m <= n <= |endpoints|
    ensures Sanitize(endpoints, m) <= Sanitize(endpoints, n)
  {
    if m < n {
      SanitizeOrder(endpoints, m, n - 1);
    }
  }

  lemma {:induction false} SanitizeFull(endpoints: seq<AddrPort>, m: nat, n: nat)
    requires m <= n <= |endpoints| && |Sanitize(endpoints, m)| >= MAX_ENDPOINTS
    ensures Sanitize(endpoints, n) == Sanitize(endpoints, m)
  {
    if m < n {
      SanitizeFull(endpoints, m, n - 1);
    }
  }

  // ----- Sorted learned addresses -----

  ghost predicate IsSortedSet(r: seq<AddrPort>, s: set<AddrPort>) {
    Lists(r, s, AddrPortLe)
  }

  /** The elements of a set in order. */
  ghost function SortedSet(s: set<AddrPort>): (r: seq<AddrPort>)
    ensures IsSortedSet(r, s)
  {
    AddrPortOrder();
    ListOf(s, AddrPortLe)
  }

  // ----- What holds of the tables -----

  ghost function CandidateList(endpoints: seq<AddrPort>, learned: map<AddrPort, Time>): seq<AddrPort> {
    endpoints + SortedSet(learned.Keys)
  }

  /** A learned address is not a configured one. */
  ghost predicate LearnedOk(endpoints: seq<AddrPort>, learned: map<AddrPort, Time>) {
    && |learned| <= MAX_LEARNED
    && (forall a :: a in learned ==> a.IsValid() && a.IsUnmapped() && a !in endpoints)
  }

  ghost predicate PeerOk(k: NodeKey, p: PeerState) {
    && p.config.nodeKey == k
    && Clean(p.config.endpoints)
    && LearnedOk(p.config.endpoints, p.learned)
    && p.candidates == CandidateList(p.config.endpoints, p.learned)
    && (p.direct.IsValid() ==> p.direct.IsUnmapped() && Usable(p.direct))
  }

  predicate Owns(p: PeerState, a: AddrPort) {
    a in p.candidates || (p.direct.IsValid() && a == p.direct)
  }

  ghost predicate AddrSound(peers: map<NodeKey, PeerState>, byAddr: AddrIndex) {
    forall a :: a in byAddr ==> byAddr[a] in peers && Owns(peers[byAddr[a]], a)
  }

  ghost predicate DiscoSound(peers: map<NodeKey, PeerState>, byDisco: map<DiscoKey, NodeKey>) {
    forall d :: d in byDisco ==> d != 0 && byDisco[d] in peers && peers[byDisco[d]].config.discoKey == d
  }

  ghost predicate Inv(t: Tables) {
    && (forall k :: k in t.peers ==> PeerOk(k, t.peers[k]))
    && AddrSound(t.peers, t.byAddr)
    && DiscoSound(t.peers, t.byDisco)
  }

  /** Whoever a packet's source address is attributed to has that address, in unmapped form. */
  lemma IndexMeaning(t: Tables, a: AddrPort)
    requires Inv(t) && a in t.byAddr
    ensures t.byAddr[a] in t.peers && Owns(t.peers[t.byAddr[a]], a)
    ensures a.IsValid() && a.IsUnmapped()
  {
    hide Usable;
    var p := t.peers[t.byAddr[a]];
    CandidateOk(t.byAddr[a], p, a);
  }

  lemma CandidateOk(k: NodeKey, p: PeerState, a: AddrPort)
    requires PeerOk(k, p)
    ensures a in p.candidates ==> a.IsValid() && a.IsUnmapped()
    ensures a in p.candidates <==> a in p.config.endpoints || a in p.learned
  {
    if a in p.config.endpoints {
      var i :| 0 <= i < |p.config.endpoints| && p.config.endpoints[i] == a;
      assert Usable(p.config.endpoints[i]);
    }
  }

  /** Candidates are the configured endpoints and then the learned ones in order, none twice, at most 512. */
  lemma CandidatesDistinct(k: NodeKey, p: PeerState)
    requires PeerOk(k, p)
    ensures Distinct(p.candidates)
    ensures |p.candidates| <= MAX_ENDPOINTS + MAX_LEARNED
    ensures p.candidates[..|p.config.endpoints|] == p.config.endpoints
    ensures IsSortedSet(p.candidates[|p.config.endpoints|..], p.learned.Keys)
  {
    hide Usable;
    var e, l := p.config.endpoints, SortedSet(p.learned.Keys);
    assert p.candidates == e + l;
    forall i, j | 0 <= i < |e| && 0 <= j < |l| ensures e[i] != l[j] {
      assert l[j] in p.learned;
    }
  }

  // ----- Changes to one peer -----

  /**
   * `byAddr'` differs from `byAddr` only in entries for addresses of peer `k`, whose new state is
   * `p`: what it gains names `k`, and what it loses or hands over named `k` or became one of its own.
   */
  ghost predicate LocalChange(byAddr: AddrIndex, byAddr': AddrIndex, k: NodeKey, p: PeerState) {
    && (forall a :: a in byAddr' && byAddr'[a] == k ==> Owns(p, a))
    && (forall a :: a in byAddr' && byAddr'[a] != k ==> a in byAddr && byAddr[a] == byAddr'[a])
    && (forall a :: a in byAddr && byAddr[a] != k ==> (a in byAddr' && byAddr'[a] == byAddr[a]) || Owns(p, a))
  }

  lemma SoundAfter(peers: map<NodeKey, PeerState>, byAddr: AddrIndex,
                   byAddr': AddrIndex, k: NodeKey, p: PeerState)
    requires AddrSound(peers, byAddr) && LocalChange(byAddr, byAddr', k, p)
    ensures AddrSound(peers[k := p], byAddr')
  {
    hide Owns;
  }

  /** No two peers have an address, or a non-zero disco key, in common. */
  ghost predicate Unshared(peers: map<NodeKey, PeerState>) {
    && (forall j, k, a :: j in peers && k in peers && Owns(peers[j], a) && Owns(peers[k], a) ==> j == k)
    && (forall j, k :: j in peers && k in peers && peers[j].config.discoKey == peers[k].config.discoKey != 0 ==> j == k)
  }

  /** Every direct address is indexed to its own peer. */
  ghost predicate DirectIndexed(peers: map<NodeKey, PeerState>, byAddr: AddrIndex) {
    forall k :: k in peers && peers[k].direct.IsValid() ==> peers[k].direct in byAddr && byAddr[peers[k].direct] == k
  }

  /** With soundness: `byDisco` is exactly the inverse of the non-zero disco keys. */
  ghost predicate DiscoIndexed(peers: map<NodeKey, PeerState>, byDisco: map<DiscoKey, NodeKey>) {
    forall k :: k in peers && peers[k].config.discoKey != 0 ==>
      peers[k].config.discoKey in byDisco && byDisco[peers[k].config.discoKey] == k
  }

  lemma DirectAfter(peers: map<NodeKey, PeerState>, byAddr: AddrIndex,
                    byAddr': AddrIndex, k: NodeKey, p: PeerState)
    requires DirectIndexed(peers, byAddr) && LocalChange(byAddr, byAddr', k, p) && Unshared(peers[k := p])
    requires OwnDirect(byAddr', k, p)
    ensures DirectIndexed(peers[k := p], byAddr')
  {
    var peers' := peers[k := p];
    forall j | j in peers' && peers'[j].direct.IsValid()
      ensures peers'[j].direct in byAddr' && byAddr'[peers'[j].direct] == j
    {
      var a := peers'[j].direct;
      assert Owns(peers'[j], a);
      if j != k {
        assert peers'[k] == p;
        assert !Owns(p, a);
      }
    }
  }

  // ----- The operations on the indexes -----

  /** Deleting the entries for `addrs` that name `k`. */
  ghost function RemoveOwned(byAddr: AddrIndex, addrs: seq<AddrPort>, k: NodeKey): AddrIndex {
    map a | a in byAddr && !(a in addrs && byAddr[a] == k) :: byAddr[a]
  }

  ghost function IndexAll(byAddr: AddrIndex, addrs: seq<AddrPort>, k: NodeKey): AddrIndex {
    byAddr + map a | a in addrs :: k
  }

  ghost function PeerBefore(t: Tables, k: NodeKey): PeerState {
    if k in t.peers then t.peers[k] else NO_PEER
  }

  ghost predicate DropsDirect(p: PeerState, config: PeerConfig) {
    p.direct.IsValid() && p.config.discoKey != config.discoKey
  }

  ghost function UpdatedPeer(p: PeerState, config: PeerConfig): PeerState {
    PeerState(config, config.endpoints, map[], if DropsDirect(p, config) then NO_ADDR else p.direct)
  }

  ghost function UpdatedAddr(byAddr: AddrIndex, p: PeerState, config: PeerConfig): AddrIndex {
    var k := config.nodeKey;
    var indexed := IndexAll(RemoveOwned(byAddr, p.candidates, k), config.endpoints, k);
    if DropsDirect(p, config) then RemoveOwned(indexed, [p.direct], k)
    else if p.direct.IsValid() then indexed[p.direct := k]
    else indexed
  }

  ghost function UpdatedDisco(byDisco: map<DiscoKey, NodeKey>, p: PeerState, config: PeerConfig): map<DiscoKey,
                              NodeKey>
  {
    var left := if p.config.discoKey != 0 then byDisco - {p.config.discoKey} else byDisco;
    if config.discoKey != 0 then left[config.discoKey := config.nodeKey] else left
  }

  ghost function Sanitized(config: PeerConfig): PeerConfig {
    config.(endpoints := Sanitize(config.endpoints, |config.endpoints|))
  }

  /** `UpdatePeer`. */
  ghost function Update(t: Tables, raw: PeerConfig): Tables {
    var config := Sanitized(raw);
    var k := config.nodeKey;
    if k in t.peers && t.peers[k].config == config then t
    else
      var p := PeerBefore(t, k);
      Tables(t.peers[k := UpdatedPeer(p, config)], UpdatedDisco(t.byDisco, p, config), UpdatedAddr(t.byAddr, p, config))
  }

  /** `RemovePeer`. */
  ghost function Remove(t: Tables, k: NodeKey): Tables {
    if k !in t.peers then t
    else
      var p := t.peers[k];
      var left := RemoveOwned(t.byAddr, p.candidates, k);
      Tables(t.peers - {k}, t.byDisco - {p.config.discoKey},
             if p.direct.IsValid() then RemoveOwned(left, [p.direct], k) else left)
  }

  /** `setDirect`. */
  ghost function SetDirect(t: Tables, k: NodeKey, raw: AddrPort): Tables {
    var a := raw.Unmap();
    if !Usable(a) || k !in t.peers then t
    else
      var p := t.peers[k];
      Tables(t.peers[k := p.(direct := a)], t.byDisco, DirectAddr(t.byAddr, k, p, a))
  }

  ghost function DirectAddr(byAddr: AddrIndex, k: NodeKey, p: PeerState, a: AddrPort): AddrIndex {
    var left := if p.direct.IsValid() && p.direct != a && p.direct !in p.candidates
                then RemoveOwned(byAddr, [p.direct], k) else byAddr;
    left[a := k]
  }

  ghost function Expired(p: PeerState, now: Time): set<AddrPort> {
    set a | a in p.learned && now - p.learned[a] > CANDIDATE_LIFETIME
  }

  ghost function PrunedPeer(p: PeerState, now: Time): PeerState {
    var learned := p.learned - Expired(p, now);
    p.(learned := learned, candidates := CandidateList(p.config.endpoints, learned))
  }

  ghost function PrunedAddr(byAddr: AddrIndex, k: NodeKey, p: PeerState, now: Time): AddrIndex {
    WithoutExpired(byAddr, k, p.direct, Expired(p, now))
  }

  /** Deleting the entries for the addresses in `gone` that name `k`, but not the one for `direct`. */
  ghost function WithoutExpired(byAddr: AddrIndex, k: NodeKey, direct: AddrPort,
                                gone: set<AddrPort>): AddrIndex
  {
    map a | a in byAddr && !(a in gone && byAddr[a] == k && direct != a) :: byAddr[a]
  }

  /** `pruneLearnedCandidatesLocked`. */
  ghost function Prune(t: Tables, k: NodeKey, now: Time): Tables {
    if k !in t.peers then t
    else t.(peers := t.peers[k := PrunedPeer(t.peers[k], now)], byAddr := PrunedAddr(t.byAddr, k, t.peers[k], now))
  }

  /** One turn of the loop of `addLearnedCandidatesLocked`. */
  function LearnOne(endpoints: seq<AddrPort>, k: NodeKey, now: Time, raw: AddrPort,
                    learned: map<AddrPort, Time>, byAddr: AddrIndex): (map<AddrPort, Time>, AddrIndex)
  {
    var a := raw.Unmap();
    if !a.IsValid() || a in endpoints then (learned, byAddr)
    else if a !in learned && |learned| >= MAX_LEARNED then (learned, byAddr)
    else (learned[a := now], byAddr[a := k])
  }

  ghost function LearnAll(endpoints: seq<AddrPort>, k: NodeKey, now: Time, raws: seq<AddrPort>, n: nat,
                          learned: map<AddrPort, Time>, byAddr: AddrIndex): (map<AddrPort, Time>, AddrIndex)
    requires n <= |raws|
  {
    if n == 0 then (learned, byAddr)
    else
      var (l, b) := LearnAll(endpoints, k, now, raws, n - 1, learned, byAddr);
      LearnOne(endpoints, k, now, raws[n - 1], l, b)
  }

  /** `addLearnedCandidatesLocked`. */
  ghost function Learn(t: Tables, k: NodeKey, raws: seq<AddrPort>, now: Time): Tables {
    if k !in t.peers then t
    else
      var pruned := Prune(t, k, now);
      var p := pruned.peers[k];
      var (learned, byAddr) := LearnAll(p.config.endpoints, k, now, raws, |raws|, p.learned, pruned.byAddr);
      t.(peers := t.peers[k := LearntPeer(p, learned)], byAddr := byAddr)
  }

  ghost function ReopenedPeer(p: PeerState, now: Time): PeerState {
    PrunedPeer(p, now).(direct := NO_ADDR)
  }

  /** What `Open` does to the tables; which of two peers with one address wins is not determined. */
  ghost predicate Reopened(t: Tables, t': Tables, now: Time) {
    && t'.byDisco == t.byDisco
    && t'.peers == (map k | k in t.peers :: ReopenedPeer(t.peers[k], now))
    && (forall a :: a in t'.byAddr ==> t'.byAddr[a] in t'.peers && a in t'.peers[t'.byAddr[a]].candidates)
    && (forall k, a :: k in t'.peers && a in t'.peers[k].candidates ==> a in t'.byAddr)
  }

  // ----- What the operations do -----

  /**
   * A changed configuration replaces the old one and forgets what was learned. The direct address
   * survives exactly with the disco key it was found with. Other peers are untouched.
   */
  lemma UpdateMeaning(t: Tables, raw: PeerConfig)
    ensures var t', k, kept := Update(t, raw), raw.nodeKey, Sanitize(raw.endpoints, |raw.endpoints|);
            && t'.peers.Keys == t.peers.Keys + {k}
            && t'.peers[k].config == PeerConfig(k, raw.discoKey, kept, raw.homeDERP, raw.wireGuardOnly)
            && (forall j :: j in t.peers && j != k ==> t'.peers[j] == t.peers[j])
            && (k in t.peers && t.peers[k].config == t'.peers[k].config ==> t' == t)
            && (k in t.peers && t.peers[k].config != t'.peers[k].config
                && t.peers[k].config.discoKey == raw.discoKey ==>
                  t'.peers[k] == PeerState(t'.peers[k].config, kept, map[], t.peers[k].direct))
            && (k in t.peers && t.peers[k].config.discoKey != raw.discoKey && t.peers[k].direct.IsValid() ==>
                  t'.peers[k] == PeerState(t'.peers[k].config, kept, map[], NO_ADDR))
            && (k !in t.peers ==> t'.peers[k] == PeerState(t'.peers[k].config, kept, map[], NO_ADDR))
  {
    hide Sanitize, UpdatedAddr, UpdatedDisco;
  }

  lemma RemoveMeaning(t: Tables, k: NodeKey)
    ensures var t' := Remove(t, k);
            && t'.peers.Keys == t.peers.Keys - {k}
            && (forall j :: j in t'.peers ==> t'.peers[j] == t.peers[j])
            && (forall a :: a in t'.byAddr ==> a in t.byAddr && t'.byAddr[a] == t.byAddr[a])
  {
  }

  /** A usable address of a known peer becomes its direct address and is indexed to it; any other is refused. */
  lemma SetDirectMeaning(t: Tables, k: NodeKey, raw: AddrPort)
    ensures var t', a := SetDirect(t, k, raw), raw.Unmap();
            && t'.peers.Keys == t.peers.Keys && t'.byDisco == t.byDisco
            && (forall j :: j in t.peers && j != k ==> t'.peers[j] == t.peers[j])
            && (Usable(a) && k in t.peers ==>
                  && t'.peers[k] == PeerState(t.peers[k].config, t.peers[k].candidates, t.peers[k].learned, a)
                  && a in t'.byAddr && t'.byAddr[a] == k)
            && (!Usable(a) || k !in t.peers ==> t' == t)
  {
    hide Usable;
  }

  /** An address learned or refreshed at `p.learned[a]` is still known exactly up to two minutes later. */
  lemma PruneMeaning(p: PeerState, now: Time, a: AddrPort)
    requires a in p.learned && a !in p.config.endpoints
    ensures a in PrunedPeer(p, now).learned <==> now - p.learned[a] <= 120_000_000_000
    ensures a in PrunedPeer(p, now).candidates <==> now - p.learned[a] <= 120_000_000_000
    ensures a in PrunedPeer(p, now).learned ==> PrunedPeer(p, now).learned[a] == p.learned[a]
    ensures PrunedPeer(p, now).config == p.config && PrunedPeer(p, now).direct == p.direct
  {
  }

  /** An address heard of that is not configured is learned as of `now`, if known already or there is room. */
  predicate Heeded(endpoints: seq<AddrPort>, now: Time, before: map<AddrPort, Time>, after: map<AddrPort, Time>,
                   a: AddrPort)
  {
    a.IsValid() && a !in endpoints && (a in before || |after| < 256) ==> a in after && after[a] == now
  }

  predicate WasTold(raws: seq<AddrPort>, n: nat, a: AddrPort)
    requires n <= |raws|
  {
    exists i :: 0 <= i < n && raws[i].Unmap() == a
  }

  /** What else is known was known before, and what changed was told and is not configured. */
  ghost predicate NothingElse(endpoints: seq<AddrPort>, now: Time, raws: seq<AddrPort>, n: nat,
                              before: map<AddrPort, Time>, after: map<AddrPort, Time>)
    requires n <= |raws|
  {
    && (forall a :: a in before ==> a in after)
    && (forall a :: a in after && !(a in before && after[a] == before[a]) ==>
          after[a] == now && a !in endpoints && a.IsValid() && WasTold(raws, n, a))
  }

  ghost predicate LearnedFrom(endpoints: seq<AddrPort>, now: Time, raws: seq<AddrPort>, n: nat,
                              before: map<AddrPort, Time>, after: map<AddrPort, Time>)
    requires n <= |raws|
  {
    && (forall i :: 0 <= i < n ==> Heeded(endpoints, now, before, after, raws[i].Unmap()))
    && NothingElse(endpoints, now, raws, n, before, after)
  }

  lemma {:induction false} LearnMeaning(endpoints: seq<AddrPort>, k: NodeKey, now: Time, raws: seq<AddrPort>, n: nat,
                                        learned: map<AddrPort, Time>, byAddr: AddrIndex)
    requires n <= |raws|
    ensures LearnedFrom(endpoints, now, raws, n, learned, LearnAll(endpoints, k, now, raws, n, learned, byAddr).0)
  {
    hide LearnedFrom, LearnOne;
    if n == 0 {
      LearnedNothing(endpoints, now, raws, learned);
    } else {
      LearnMeaning(endpoints, k, now, raws, n - 1, learned, byAddr);
      var (l, b) := LearnAll(endpoints, k, now, raws, n - 1, learned, byAddr);
      LearnedMore(endpoints, k, now, raws, n, learned, l, b);
    }
  }

  lemma LearnedNothing(endpoints: seq<AddrPort>, now: Time, raws: seq<AddrPort>, learned: map<AddrPort, Time>)
    ensures LearnedFrom(endpoints, now, raws, 0, learned, learned)
  {
  }

  lemma LearnOneGrows(endpoints: seq<AddrPort>, k: NodeKey, now: Time, raw: AddrPort, l: map<AddrPort, Time>,
                      b: AddrIndex)
    ensures var l', a := LearnOne(endpoints, k, now, raw, l, b).0, raw.Unmap();
            && |l| <= |l'| && (forall x :: x in l ==> x in l' && (x != a ==> l'[x] == l[x]))
            && (forall x :: x in l' && x != a ==> x in l)
            && (l' == l || (a in l' && l'[a] == now && a.IsValid() && a !in endpoints))
            && (a.IsValid() && a !in endpoints && (a in l || |l'| < 256) ==> a in l' && l'[a] == now)
  {
    var a := raw.Unmap();
    if a in l {
      assert l[a := now].Keys == l.Keys;
    } else {
      assert l[a := now].Keys == l.Keys + {a};
    }
  }

  lemma LearnedMore(endpoints: seq<AddrPort>, k: NodeKey, now: Time, raws: seq<AddrPort>, n: nat,
                    before: map<AddrPort, Time>, l: map<AddrPort, Time>, b: AddrIndex)
    requires 0 < n <= |raws| && LearnedFrom(endpoints, now, raws, n - 1, before, l)
    ensures LearnedFrom(endpoints, now, raws, n, before, LearnOne(endpoints, k, now, raws[n - 1], l, b).0)
  {
    hide LearnOne;
    var l' := LearnOne(endpoints, k, now, raws[n - 1], l, b).0;
    LearnOneGrows(endpoints, k, now, raws[n - 1], l, b);
    forall a | WasTold(raws, n - 1, a) || a == raws[n - 1].Unmap() ensures WasTold(raws, n, a) {
    }
    hide WasTold;
    assert NothingElse(endpoints, now, raws, n, before, l');
    forall i | 0 <= i < n ensures Heeded(endpoints, now, before, l', raws[i].Unmap()) {
      assert i < n - 1 ==> Heeded(endpoints, now, before, l, raws[i].Unmap());
    }
  }

  /** What `addLearnedCandidatesLocked` leaves: the unexpired addresses and those it was told. */
  lemma LearnTableMeaning(t: Tables, k: NodeKey, raws: seq<AddrPort>, now: Time)
    requires k in t.peers
    ensures var p, p' := t.peers[k], Learn(t, k, raws, now).peers[k];
            && p'.config == p.config && p'.direct == p.direct
            && LearnedFrom(p.config.endpoints, now, raws, |raws|, p.learned - Expired(p, now), p'.learned)
            && p'.candidates == p.config.endpoints + SortedSet(p'.learned.Keys)
  {
    hide LearnedFrom, LearnAll, Expired, PrunedAddr, SortedSet;
    var t1 := Prune(t, k, now);
    var p1 := t1.peers[k];
    LearnMeaning(p1.config.endpoints, k, now, raws, |raws|, p1.learned, t1.byAddr);
  }

  // ----- Every operation keeps the tables in agreement -----

  /** Entries that name `k` are for addresses of `p`. */
  ghost predicate NamedAreOwned(byAddr: AddrIndex, k: NodeKey, p: PeerState) {
    forall a :: a in byAddr && byAddr[a] == k ==> Owns(p, a)
  }

  lemma UpdatedLocal(byAddr: AddrIndex, p: PeerState, config: PeerConfig)
    requires NamedAreOwned(byAddr, config.nodeKey, p)
    ensures LocalChange(byAddr, UpdatedAddr(byAddr, p, config), config.nodeKey, UpdatedPeer(p, config))
  {
  }

  lemma SetDirectLocal(byAddr: AddrIndex, k: NodeKey, p: PeerState, a: AddrPort)
    requires NamedAreOwned(byAddr, k, p) && a.IsValid()
    ensures LocalChange(byAddr, DirectAddr(byAddr, k, p, a), k, p.(direct := a))
  {
  }

  lemma PrunedLocal(byAddr: AddrIndex, k: NodeKey, p: PeerState, now: Time)
    requires NamedAreOwned(byAddr, k, p) && PeerOk(k, p)
    ensures LocalChange(byAddr, PrunedAddr(byAddr, k, p, now), k, PrunedPeer(p, now))
  {
    hide Usable, Clean;
  }

  lemma PrunedOk(k: NodeKey, p: PeerState, now: Time)
    requires PeerOk(k, p)
    ensures PeerOk(k, PrunedPeer(p, now))
    ensures Expired(p, now) == {} ==> PrunedPeer(p, now) == p
  {
    hide Usable, Clean, CandidateList;
    Fewer(p.learned, Expired(p, now));
    if Expired(p, now) == {} {
      assert p.learned - Expired(p, now) == p.learned;
    }
  }

  lemma Fewer(m: map<AddrPort, Time>, gone: set<AddrPort>)
    ensures |m - gone| <= |m|
  {
    assert (m - gone).Keys <= m.Keys;
    Subset((m - gone).Keys, m.Keys);
  }

  lemma {:induction false} Subset(a: set<AddrPort>, b: set<AddrPort>)
    requires a <= b
    ensures |a| <= |b|
  {
    if a != {} {
      var x :| x in a;
      Subset(a - {x}, b - {x});
    }
  }

  lemma LearnOneOk(endpoints: seq<AddrPort>, k: NodeKey, now: Time, raw: AddrPort,
                   learned: map<AddrPort, Time>, byAddr: AddrIndex)
    requires LearnedOk(endpoints, learned)
    ensures LearnedOk(endpoints, LearnOne(endpoints, k, now, raw, learned, byAddr).0)
  {
    UnmapTwice(raw.addr);
    var a := raw.Unmap();
    if a in learned {
      assert learned[a := now].Keys == learned.Keys;
    } else {
      assert learned[a := now].Keys == learned.Keys + {a};
    }
  }

  /** Learning only adds: what it learns it indexes, and every other entry stays. */
  ghost predicate Grown(k: NodeKey, learned: map<AddrPort, Time>, byAddr: AddrIndex,
                        learned': map<AddrPort, Time>, byAddr': AddrIndex)
  {
    && learned.Keys <= learned'.Keys && byAddr.Keys <= byAddr'.Keys
    && (forall a :: a in byAddr' ==> (a in byAddr && byAddr'[a] == byAddr[a]) || (byAddr'[a] == k && a in learned'))
    && (forall a :: a in learned' && a !in learned ==> a in byAddr' && byAddr'[a] == k)
  }

  lemma GrownStep(endpoints: seq<AddrPort>, k: NodeKey, now: Time, raw: AddrPort,
                  learned: map<AddrPort, Time>, byAddr: AddrIndex,
                  l: map<AddrPort, Time>, b: AddrIndex)
    requires Grown(k, learned, byAddr, l, b)
    ensures var (l', b') := LearnOne(endpoints, k, now, raw, l, b); Grown(k, learned, byAddr, l', b')
  {
  }

  lemma {:induction false} LearnAllOk(endpoints: seq<AddrPort>, k: NodeKey, now: Time, raws: seq<AddrPort>, n: nat,
                                      learned: map<AddrPort, Time>, byAddr: AddrIndex)
    requires n <= |raws| && LearnedOk(endpoints, learned)
    ensures var (l, b) := LearnAll(endpoints, k, now, raws, n, learned, byAddr);
            LearnedOk(endpoints, l) && Grown(k, learned, byAddr, l, b)
  {
    if n == 0 {
      assert Grown(k, learned, byAddr, learned, byAddr);
    } else {
      hide LearnedOk, Grown, LearnOne;
      LearnAllOk(endpoints, k, now, raws, n - 1, learned, byAddr);
      var (l, b) := LearnAll(endpoints, k, now, raws, n - 1, learned, byAddr);
      LearnOneOk(endpoints, k, now, raws[n - 1], l, b);
      GrownStep(endpoints, k, now, raws[n - 1], learned, byAddr, l, b);
    }
  }

  ghost function LearntPeer(p: PeerState, learned: map<AddrPort, Time>): PeerState {
    p.(learned := learned, candidates := CandidateList(p.config.endpoints, learned))
  }

  lemma GrownLocal(byAddr: AddrIndex, k: NodeKey, p: PeerState,
                   learned': map<AddrPort, Time>, byAddr': AddrIndex)
    requires NamedAreOwned(byAddr, k, p) && PeerOk(k, p)
    requires Grown(k, p.learned, byAddr, learned', byAddr')
    ensures LocalChange(byAddr, byAddr', k, LearntPeer(p, learned'))
  {
    hide Usable, Clean;
  }

  lemma OwnedOf(t: Tables, k: NodeKey)
    requires AddrSound(t.peers, t.byAddr)
    ensures NamedAreOwned(t.byAddr, k, PeerBefore(t, k))
  {
    hide Owns;
  }

  /** Replacing one peer by a consistent state, with a local change of the index. */
  lemma OnePeer(t: Tables, k: NodeKey, p: PeerState, byDisco': map<DiscoKey, NodeKey>, byAddr': AddrIndex)
    requires Inv(t) && PeerOk(k, p) && LocalChange(t.byAddr, byAddr', k, p)
    requires DiscoSound(t.peers[k := p], byDisco')
    ensures Inv(Tables(t.peers[k := p], byDisco', byAddr'))
  {
    hide PeerOk, AddrSound, DiscoSound, LocalChange;
    SoundAfter(t.peers, t.byAddr, byAddr', k, p);
  }

  lemma SameDisco(peers: map<NodeKey, PeerState>, byDisco: map<DiscoKey, NodeKey>, k: NodeKey, p: PeerState)
    requires DiscoSound(peers, byDisco)
    requires k in peers && p.config == peers[k].config
    ensures DiscoSound(peers[k := p], byDisco)
  {
  }

  lemma UpdatedDiscoSound(t: Tables, config: PeerConfig, p: PeerState)
    requires DiscoSound(t.peers, t.byDisco) && p.config == config
    ensures DiscoSound(t.peers[config.nodeKey := p], UpdatedDisco(t.byDisco, PeerBefore(t, config.nodeKey), config))
  {
  }

  lemma UpdatedOk(p: PeerState, config: PeerConfig)
    requires Clean(config.endpoints)
    requires p.direct.IsValid() ==> p.direct.IsUnmapped() && Usable(p.direct)
    ensures PeerOk(config.nodeKey, UpdatedPeer(p, config))
  {
    hide Usable, Clean;
    var none: map<AddrPort, Time> := map[];
    assert SortedSet(none.Keys) == [];
  }

  lemma UpdateKeeps(t: Tables, raw: PeerConfig)
    requires Inv(t)
    ensures Inv(Update(t, raw))
  {
    hide Usable, Clean, AddrSound, DiscoSound, LocalChange, UpdatedAddr, UpdatedDisco, Sanitize, NamedAreOwned;
    var config := Sanitized(raw);
    var p := PeerBefore(t, config.nodeKey);
    SanitizeClean(raw.endpoints, |raw.endpoints|);
    UpdatedOk(p, config);
    hide PeerOk;
    OwnedOf(t, config.nodeKey);
    UpdatedLocal(t.byAddr, p, config);
    UpdatedDiscoSound(t, config, UpdatedPeer(p, config));
    OnePeer(t, config.nodeKey, UpdatedPeer(p, config), UpdatedDisco(t.byDisco, p, config),
            UpdatedAddr(t.byAddr, p, config));
  }

  /** A removed peer leaves nothing behind: no entry of either index names it. */
  lemma RemoveKeeps(t: Tables, k: NodeKey)
    requires Inv(t)
    ensures Inv(Remove(t, k))
    ensures k !in Remove(t, k).peers && k !in Remove(t, k).byAddr.Values && k !in Remove(t, k).byDisco.Values
    ensures forall a :: a in t.byAddr && t.byAddr[a] != k ==> a in Remove(t, k).byAddr
  {
    hide PeerOk;
    assert AddrSound(Remove(t, k).peers, Remove(t, k).byAddr);
  }

  /**
   * Removing a peer deletes the disco entry of its key without asking whose it is: the disco
   * entries of other peers survive exactly if that entry is not one of them.
   */
  lemma RemoveKeepsDiscos(t: Tables, k: NodeKey)
    requires Inv(t) && k in t.peers
    ensures var d := t.peers[k].config.discoKey;
            (forall e :: e in t.byDisco && t.byDisco[e] != k ==> e in Remove(t, k).byDisco)
            <==> !(d in t.byDisco && t.byDisco[d] != k)
    ensures forall e :: e in Remove(t, k).byDisco ==> e in t.byDisco && Remove(t, k).byDisco[e] == t.byDisco[e]
  {
    hide PeerOk, AddrSound;
  }

  /** Two peers with one disco key: removing the first takes the entry of the second. */
  lemma SharedDiscoIsLost()
    ensures var t := Update(Update(NO_TABLES, PeerConfig(1, 5, [], 0, false)), PeerConfig(2, 5, [], 0, false));
            && t.byDisco == map[5 := 2] && 2 in t.peers && t.peers[2].config.discoKey == 5
            && Remove(t, 1).byDisco == map[]
  {
    hide UpdatedAddr, UpdatedPeer;
    var a, b := PeerConfig(1, 5, [], 0, false), PeerConfig(2, 5, [], 0, false);
    assert Sanitized(a) == a && Sanitized(b) == b;
    assert UpdatedDisco(map[], NO_PEER, a) == map[5 := 1];
    assert UpdatedDisco(map[5 := 1], NO_PEER, b) == map[5 := 2];
    UpdatedConfig(NO_PEER, a);
    UpdatedConfig(NO_PEER, b);
  }

  lemma UpdatedConfig(p: PeerState, config: PeerConfig)
    ensures UpdatedPeer(p, config).config == config
  {
  }

  lemma SetDirectKeeps(t: Tables, k: NodeKey, raw: AddrPort)
    requires Inv(t)
    ensures Inv(SetDirect(t, k, raw))
  {
    hide Usable, Clean, AddrSound, DiscoSound, LocalChange, DirectAddr, NamedAreOwned, CandidateList, LearnedOk;
    var a := raw.Unmap();
    UnmapTwice(raw.addr);
    if Usable(a) && k in t.peers {
      var p := t.peers[k];
      ValidIfUsable(a);
      OwnedOf(t, k);
      SetDirectLocal(t.byAddr, k, p, a);
      SameDisco(t.peers, t.byDisco, k, p.(direct := a));
      assert PeerOk(k, p);
      OnePeer(t, k, p.(direct := a), t.byDisco, DirectAddr(t.byAddr, k, p, a));
    }
  }

  lemma ValidIfUsable(a: AddrPort)
    ensures Usable(a) ==> a.IsValid()
  {
  }

  lemma PruneKeeps(t: Tables, k: NodeKey, now: Time)
    requires Inv(t)
    ensures Inv(Prune(t, k, now))
  {
    hide PeerOk, AddrSound, DiscoSound, LocalChange, NamedAreOwned, PrunedAddr, CandidateList, Expired;
    if k in t.peers {
      var p := t.peers[k];
      assert PeerOk(k, p);
      OwnedOf(t, k);
      PrunedOk(k, p, now);
      PrunedLocal(t.byAddr, k, p, now);
      SameDisco(t.peers, t.byDisco, k, PrunedPeer(p, now));
      OnePeer(t, k, PrunedPeer(p, now), t.byDisco, PrunedAddr(t.byAddr, k, p, now));
    }
  }

  lemma LearntOk(k: NodeKey, p: PeerState, learned: map<AddrPort, Time>)
    requires PeerOk(k, p) && LearnedOk(p.config.endpoints, learned)
    ensures PeerOk(k, LearntPeer(p, learned))
  {
  }

  /** Learning is pruning and then a local change of one peer. */
  lemma LearnKeeps(t: Tables, k: NodeKey, raws: seq<AddrPort>, now: Time)
    requires Inv(t)
    ensures Inv(Learn(t, k, raws, now))
  {
    hide PeerOk, AddrSound, DiscoSound, LocalChange, NamedAreOwned, CandidateList, PrunedPeer, PrunedAddr,
      LearnAll, LearnedOk, Grown;
    if k in t.peers {
      PruneKeeps(t, k, now);
      var t1 := Prune(t, k, now);
      var p := t1.peers[k];
      assert PeerOk(k, p);
      OwnedOf(t1, k);
      EndpointsOfLearned(k, p);
      LearnAllOk(p.config.endpoints, k, now, raws, |raws|, p.learned, t1.byAddr);
      var (learned, byAddr) := LearnAll(p.config.endpoints, k, now, raws, |raws|, p.learned, t1.byAddr);
      GrownLocal(t1.byAddr, k, p, learned, byAddr);
      LearntOk(k, p, learned);
      SameDisco(t1.peers, t1.byDisco, k, LearntPeer(p, learned));
      OnePeer(t1, k, LearntPeer(p, learned), t.byDisco, byAddr);
      assert t1.peers[k := LearntPeer(p, learned)] == t.peers[k := LearntPeer(p, learned)];
    }
  }

  lemma EndpointsOfLearned(k: NodeKey, p: PeerState)
    requires PeerOk(k, p)
    ensures LearnedOk(p.config.endpoints, p.learned)
  {
  }

  lemma ReopenKeeps(t: Tables, t': Tables, now: Time)
    requires Inv(t) && Reopened(t, t', now)
    ensures Inv(t')
  {
    hide PeerOk, ReopenedPeer;
    forall k | k in t.peers
      ensures PeerOk(k, ReopenedPeer(t.peers[k], now)) && ReopenedPeer(t.peers[k], now).config == t.peers[k].config
    {
      ReopenedOk(k, t.peers[k], now);
    }
  }

  lemma ReopenedOk(k: NodeKey, p: PeerState, now: Time)
    requires PeerOk(k, p)
    ensures PeerOk(k, ReopenedPeer(p, now)) && ReopenedPeer(p, now).config == p.config
  {
    PrunedOk(k, p, now);
  }

  // ----- Runs -----

  datatype Step =
    | UpdateStep(config: PeerConfig)
    | RemoveStep(key: NodeKey)
    | SetDirectStep(key: NodeKey, addr: AddrPort)
    | PruneStep(key: NodeKey, now: Time)
    | LearnStep(key: NodeKey, addrs: seq<AddrPort>, now: Time)
    | ReopenStep(now: Time)

  ghost predicate Next(t: Tables, step: Step, t': Tables) {
    match step
    case UpdateStep(config) => t' == Update(t, config)
    case RemoveStep(key) => t' == Remove(t, key)
    case SetDirectStep(key, addr) => t' == SetDirect(t, key, addr)
    case PruneStep(key, now) => t' == Prune(t, key, now)
    case LearnStep(key, addrs, now) => t' == Learn(t, key, addrs, now)
    case ReopenStep(now) => Reopened(t, t', now)
  }

  /** The tables after each prefix of `steps`, from empty tables. */
  ghost predicate Run(states: seq<Tables>, steps: seq<Step>) {
    && |states| == |steps| + 1 && states[0] == NO_TABLES
    && (forall i :: 0 <= i < |steps| ==> Next(states[i], steps[i], states[i + 1]))
  }

  lemma NextKeeps(t: Tables, step: Step, t': Tables)
    requires Inv(t) && Next(t, step, t')
    ensures Inv(t')
  {
    hide Inv, Update, Remove, SetDirect, Prune, Learn, Reopened;
    match step
    case UpdateStep(config) => UpdateKeeps(t, config);
    case RemoveStep(key) => RemoveKeeps(t, key);
    case SetDirectStep(key, addr) => SetDirectKeeps(t, key, addr);
    case PruneStep(key, now) => PruneKeeps(t, key, now);
    case LearnStep(key, addrs, now) => LearnKeeps(t, key, addrs, now);
    case ReopenStep(now) => ReopenKeeps(t, t', now);
  }

  /** The tables agree in every state of every run. */
  lemma {:induction false} RunsAgree(states: seq<Tables>, steps: seq<Step>, i: nat)
    requires Run(states, steps) && i < |states|
    ensures Inv(states[i])
  {
    if i != 0 {
      hide Inv, Next;
      RunsAgree(states, steps, i - 1);
      assert Next(states[i - 1], steps[i - 1], states[i - 1 + 1]);
      NextKeeps(states[i - 1], steps[i - 1], states[i]);
    }
  }

  // ----- When peers share nothing the indexes are exact -----

  /** Every address a peer has is indexed to it; with soundness, `byAddr` is the exact inverse. */
  ghost predicate AllIndexed(peers: map<NodeKey, PeerState>, byAddr: AddrIndex) {
    forall k, a :: k in peers && Owns(peers[k], a) ==> a in byAddr && byAddr[a] == k
  }

  ghost predicate OwnIndexed(byAddr: AddrIndex, k: NodeKey, p: PeerState) {
    forall a :: Owns(p, a) ==> a in byAddr && byAddr[a] == k
  }

  ghost predicate OwnDirect(byAddr: AddrIndex, k: NodeKey, p: PeerState) {
    p.direct.IsValid() ==> p.direct in byAddr && byAddr[p.direct] == k
  }

  lemma AllAfter(peers: map<NodeKey, PeerState>, byAddr: AddrIndex,
                 byAddr': AddrIndex, k: NodeKey, p: PeerState)
    requires AllIndexed(peers, byAddr) && LocalChange(byAddr, byAddr', k, p) && Unshared(peers[k := p])
    ensures AllIndexed(peers[k := p], byAddr') <==> OwnIndexed(byAddr', k, p)
  {
    hide Owns;
    var peers' := peers[k := p];
    if OwnIndexed(byAddr', k, p) {
      forall j, a | j in peers' && Owns(peers'[j], a) ensures a in byAddr' && byAddr'[a] == j {
        if j != k {
          assert peers'[k] == p && !Owns(p, a);
        }
      }
    } else {
      var a :| Owns(p, a) && !(a in byAddr' && byAddr'[a] == k);
      assert peers'[k] == p;
    }
  }

  /** The update drops a direct address that is also one of the new endpoints. */
  ghost predicate Strands(p: PeerState, config: PeerConfig) {
    DropsDirect(p, config) && p.direct in config.endpoints
  }

  /**
   * A changed peer has all its addresses indexed unless the update strands one: the dropped direct
   * address loses the entry that the same address has just gained as an endpoint.
   */
  lemma UpdatedOwn(byAddr: AddrIndex, p: PeerState, config: PeerConfig)
    ensures OwnIndexed(UpdatedAddr(byAddr, p, config), config.nodeKey, UpdatedPeer(p, config)) <==> !Strands(p, config)
    ensures OwnDirect(UpdatedAddr(byAddr, p, config), config.nodeKey, UpdatedPeer(p, config))
  {
    if Strands(p, config) {
      assert Owns(UpdatedPeer(p, config), p.direct);
    }
  }

  lemma DirectOwn(byAddr: AddrIndex, k: NodeKey, p: PeerState, a: AddrPort)
    ensures OwnDirect(DirectAddr(byAddr, k, p, a), k, p.(direct := a))
    ensures OwnIndexed(byAddr, k, p) ==> OwnIndexed(DirectAddr(byAddr, k, p, a), k, p.(direct := a))
  {
  }

  lemma PrunedOwn(byAddr: AddrIndex, k: NodeKey, p: PeerState, now: Time)
    requires PeerOk(k, p)
    ensures OwnDirect(byAddr, k, p) ==> OwnDirect(PrunedAddr(byAddr, k, p, now), k, PrunedPeer(p, now))
    ensures OwnIndexed(byAddr, k, p) ==> OwnIndexed(PrunedAddr(byAddr, k, p, now), k, PrunedPeer(p, now))
  {
    hide Usable, Clean;
    forall a | a in PrunedPeer(p, now).candidates ensures a in p.candidates && a !in Expired(p, now) {
    }
  }

  lemma GrownOwn(byAddr: AddrIndex, k: NodeKey, p: PeerState,
                 learned': map<AddrPort, Time>, byAddr': AddrIndex)
    requires PeerOk(k, p) && Grown(k, p.learned, byAddr, learned', byAddr')
    ensures OwnDirect(byAddr, k, p) ==> OwnDirect(byAddr', k, LearntPeer(p, learned'))
    ensures OwnIndexed(byAddr, k, p) ==> OwnIndexed(byAddr', k, LearntPeer(p, learned'))
  {
    hide Usable, Clean, LearnedOk;
    forall a | a in LearntPeer(p, learned').candidates ensures a in p.candidates || a in learned' {
    }
  }

  lemma OwnOf(t: Tables, k: NodeKey)
    requires k in t.peers
    ensures DirectIndexed(t.peers, t.byAddr) ==> OwnDirect(t.byAddr, k, t.peers[k])
    ensures AllIndexed(t.peers, t.byAddr) ==> OwnIndexed(t.byAddr, k, t.peers[k])
  {
    hide Owns;
  }

  /** What a change of one peer does to exactness. */
  lemma OneExact(t: Tables, k: NodeKey, p: PeerState, byAddr': AddrIndex)
    requires LocalChange(t.byAddr, byAddr', k, p) && Unshared(t.peers[k := p])
    ensures DirectIndexed(t.peers, t.byAddr) && OwnDirect(byAddr', k, p) ==> DirectIndexed(t.peers[k := p], byAddr')
    ensures AllIndexed(t.peers, t.byAddr) ==> (AllIndexed(t.peers[k := p], byAddr') <==> OwnIndexed(byAddr', k, p))
  {
    hide Owns, DirectIndexed, AllIndexed, LocalChange, Unshared, OwnDirect, OwnIndexed;
    if DirectIndexed(t.peers, t.byAddr) && OwnDirect(byAddr', k, p) {
      DirectAfter(t.peers, t.byAddr, byAddr', k, p);
    }
    if AllIndexed(t.peers, t.byAddr) {
      AllAfter(t.peers, t.byAddr, byAddr', k, p);
    }
  }

  lemma UpdatedDiscoIndexed(t: Tables, config: PeerConfig, p: PeerState)
    requires DiscoIndexed(t.peers, t.byDisco) && p.config == config && Unshared(t.peers[config.nodeKey := p])
    ensures DiscoIndexed(t.peers[config.nodeKey := p], UpdatedDisco(t.byDisco, PeerBefore(t, config.nodeKey), config))
  {
    hide Owns;
    var k, peers' := config.nodeKey, t.peers[config.nodeKey := p];
    forall j | j in peers' && j != k && peers'[j].config.discoKey == config.discoKey ensures config.discoKey == 0 {
      assert peers'[k] == p;
    }
  }

  lemma SameDiscoIndexed(peers: map<NodeKey, PeerState>, byDisco: map<DiscoKey, NodeKey>, k: NodeKey, p: PeerState)
    requires k in peers && p.config == peers[k].config
    ensures DiscoIndexed(peers, byDisco) ==> DiscoIndexed(peers[k := p], byDisco)
  {
  }

  /** The update changes the peer and strands one of its addresses. */
  ghost predicate StrandingUpdate(t: Tables, raw: PeerConfig) {
    var config := Sanitized(raw);
    var k := config.nodeKey;
    !(k in t.peers && t.peers[k].config == config) && Strands(PeerBefore(t, k), config)
  }

  /** From `t` to `t'`, exactness is kept; for all addresses, just when nothing is stranded. */
  ghost predicate KeepsExact(t: Tables, t': Tables, stranding: bool) {
    && (DirectIndexed(t.peers, t.byAddr) ==> DirectIndexed(t'.peers, t'.byAddr))
    && (DiscoIndexed(t.peers, t.byDisco) ==> DiscoIndexed(t'.peers, t'.byDisco))
    && (AllIndexed(t.peers, t.byAddr) ==> (AllIndexed(t'.peers, t'.byAddr) <==> !stranding))
  }

  lemma UpdateExact(t: Tables, raw: PeerConfig)
    requires Inv(t) && Unshared(Update(t, raw).peers)
    ensures KeepsExact(t, Update(t, raw), StrandingUpdate(t, raw))
  {
    hide AddrSound, DiscoSound, LocalChange, UpdatedAddr, UpdatedDisco, Sanitize, NamedAreOwned, Unshared, Strands,
      AllIndexed, DirectIndexed, DiscoIndexed, OwnIndexed, OwnDirect, DropsDirect;
    var config := Sanitized(raw);
    var k, p := config.nodeKey, PeerBefore(t, config.nodeKey);
    if !(k in t.peers && t.peers[k].config == config) {
      var p' := UpdatedPeer(p, config);
      OwnedOf(t, k);
      UpdatedLocal(t.byAddr, p, config);
      UpdatedOwn(t.byAddr, p, config);
      OneExact(t, k, p', UpdatedAddr(t.byAddr, p, config));
      if DiscoIndexed(t.peers, t.byDisco) {
        UpdatedDiscoIndexed(t, config, p');
      }
    }
  }

  lemma RemoveExact(t: Tables, k: NodeKey)
    ensures KeepsExact(t, Remove(t, k), false)
  {
  }

  lemma SetDirectExact(t: Tables, k: NodeKey, raw: AddrPort)
    requires Inv(t) && Unshared(SetDirect(t, k, raw).peers)
    ensures KeepsExact(t, SetDirect(t, k, raw), false)
  {
    hide Usable, PeerOk, AddrSound, DiscoSound, LocalChange, DirectAddr, NamedAreOwned, Unshared,
      AllIndexed, DirectIndexed, DiscoIndexed, OwnIndexed, OwnDirect;
    var a := raw.Unmap();
    if Usable(a) && k in t.peers {
      var p := t.peers[k];
      ValidIfUsable(a);
      OwnedOf(t, k);
      SetDirectLocal(t.byAddr, k, p, a);
      OwnOf(t, k);
      DirectOwn(t.byAddr, k, p, a);
      OneExact(t, k, p.(direct := a), DirectAddr(t.byAddr, k, p, a));
      SameDiscoIndexed(t.peers, t.byDisco, k, p.(direct := a));
    }
  }

  lemma PruneExact(t: Tables, k: NodeKey, now: Time)
    requires Inv(t) && Unshared(Prune(t, k, now).peers)
    ensures KeepsExact(t, Prune(t, k, now), false)
  {
    hide PeerOk, AddrSound, DiscoSound, LocalChange, PrunedAddr, CandidateList, Expired, NamedAreOwned, Unshared,
      AllIndexed, DirectIndexed, DiscoIndexed, OwnIndexed, OwnDirect;
    if k in t.peers {
      var p := t.peers[k];
      assert PeerOk(k, p);
      OwnedOf(t, k);
      PrunedLocal(t.byAddr, k, p, now);
      OwnOf(t, k);
      PrunedOwn(t.byAddr, k, p, now);
      OneExact(t, k, PrunedPeer(p, now), PrunedAddr(t.byAddr, k, p, now));
      SameDiscoIndexed(t.peers, t.byDisco, k, PrunedPeer(p, now));
    }
  }

  /** Fewer addresses stay unshared. */
  lemma PruneUnshares(t: Tables, k: NodeKey, now: Time)
    requires Inv(t) && Unshared(t.peers)
    ensures Unshared(Prune(t, k, now).peers)
  {
    hide Owns, PeerOk, PrunedPeer, AddrSound, DiscoSound, PrunedAddr;
    if k in t.peers {
      assert PeerOk(k, t.peers[k]);
      PrunedOwnsLess(k, t.peers[k], now);
    }
  }

  lemma PrunedOwnsLess(k: NodeKey, p: PeerState, now: Time)
    requires PeerOk(k, p)
    ensures forall a :: Owns(PrunedPeer(p, now), a) ==> Owns(p, a)
    ensures PrunedPeer(p, now).config == p.config
  {
    hide Usable, Clean;
  }

  lemma LearnExact(t: Tables, k: NodeKey, raws: seq<AddrPort>, now: Time)
    requires Inv(t) && Unshared(t.peers) && Unshared(Learn(t, k, raws, now).peers)
    ensures KeepsExact(t, Learn(t, k, raws, now), false)
  {
    hide PeerOk, AddrSound, DiscoSound, LocalChange, NamedAreOwned, CandidateList, PrunedPeer, PrunedAddr, Unshared,
      LearnAll, LearnedOk, Grown, AllIndexed, DirectIndexed, DiscoIndexed, OwnIndexed, OwnDirect;
    if k in t.peers {
      PruneKeeps(t, k, now);
      PruneUnshares(t, k, now);
      PruneExact(t, k, now);
      var t1 := Prune(t, k, now);
      var p := t1.peers[k];
      assert PeerOk(k, p);
      OwnedOf(t1, k);
      OwnOf(t1, k);
      EndpointsOfLearned(k, p);
      LearnAllOk(p.config.endpoints, k, now, raws, |raws|, p.learned, t1.byAddr);
      var (learned, byAddr) := LearnAll(p.config.endpoints, k, now, raws, |raws|, p.learned, t1.byAddr);
      GrownLocal(t1.byAddr, k, p, learned, byAddr);
      GrownOwn(t1.byAddr, k, p, learned, byAddr);
      assert t1.peers[k := LearntPeer(p, learned)] == t.peers[k := LearntPeer(p, learned)];
      OneExact(t1, k, LearntPeer(p, learned), byAddr);
      SameDiscoIndexed(t1.peers, t1.byDisco, k, LearntPeer(p, learned));
    }
  }

  lemma ReopenExact(t: Tables, t': Tables, now: Time)
    requires Inv(t) && Reopened(t, t', now) && Unshared(t'.peers)
    ensures KeepsExact(t, t', false)
  {
    hide PeerOk, PrunedPeer;
    forall k | k in t.peers ensures ReopenedPeer(t.peers[k], now).config == t.peers[k].config {
      assert PeerOk(k, t.peers[k]);
      ReopenedOk(k, t.peers[k], now);
    }
    forall k, a | k in t'.peers && Owns(t'.peers[k], a) ensures a in t'.byAddr && t'.byAddr[a] == k {
      assert Owns(t'.peers[t'.byAddr[a]], a);
    }
  }

  lemma EmptyIsExact()
    ensures var t := NO_TABLES;
            DirectIndexed(t.peers, t.byAddr) && DiscoIndexed(t.peers, t.byDisco) && AllIndexed(t.peers, t.byAddr)
  {
  }

  ghost predicate Stranding(t: Tables, step: Step) {
    step.UpdateStep? && StrandingUpdate(t, step.config)
  }

  lemma NextExact(t: Tables, step: Step, t': Tables)
    requires Inv(t) && Next(t, step, t') && Unshared(t.peers) && Unshared(t'.peers)
    ensures KeepsExact(t, t', Stranding(t, step))
  {
    hide Inv, Update, Remove, SetDirect, Prune, Learn, Reopened, Unshared, KeepsExact, StrandingUpdate;
    match step
    case UpdateStep(config) => UpdateExact(t, config);
    case RemoveStep(key) => RemoveExact(t, key);
    case SetDirectStep(key, addr) => SetDirectExact(t, key, addr);
    case PruneStep(key, now) => PruneExact(t, key, now);
    case LearnStep(key, addrs, now) => LearnExact(t, key, addrs, now);
    case ReopenStep(now) => ReopenExact(t, t', now);
  }

  /**
   * In a run whose peers never share an address or disco key, every direct address is indexed to
   * its own peer and `byDisco` is exact; if no update strands an address, `byAddr` is exact too.
   */
  lemma {:induction false} UnsharedRunsAreExact(states: seq<Tables>, steps: seq<Step>, i: nat)
    requires Run(states, steps) && i < |states|
    requires forall j :: 0 <= j <= i ==> Unshared(states[j].peers)
    ensures DirectIndexed(states[i].peers, states[i].byAddr) && DiscoIndexed(states[i].peers, states[i].byDisco)
    ensures (forall j :: 0 <= j < i ==> !Stranding(states[j], steps[j])) ==>
              AllIndexed(states[i].peers, states[i].byAddr)
  {
    hide Inv, Next, Unshared, Stranding, DirectIndexed, DiscoIndexed, AllIndexed;
    if i == 0 {
      EmptyIsExact();
    } else {
      UnsharedRunsAreExact(states, steps, i - 1);
      RunsAgree(states, steps, i - 1);
      assert Next(states[i - 1], steps[i - 1], states[i - 1 + 1]);
      NextExact(states[i - 1], steps[i - 1], states[i]);
    }
  }

  const ENDPOINT := AddrPort(Addr(32, 0x0a00_0001), 41641)

  lemma EndpointUsable()
    ensures Usable(ENDPOINT) && ENDPOINT.Unmap() == ENDPOINT && Sanitize([ENDPOINT], 1) == [ENDPOINT]
  {
    assert Sanitize([ENDPOINT], 0) == [];
  }

  function PeerWith(disco: DiscoKey, direct: AddrPort): PeerState {
    PeerState(PeerConfig(1, disco, [ENDPOINT], 0, false), [ENDPOINT], map[], direct)
  }

  /** A new disco key for a peer whose direct address is its listed endpoint strands the endpoint. */
  lemma StrandedEndpoint()
    ensures var t := Tables(map[1 := PeerWith(1, ENDPOINT)], map[1 := 1], map[ENDPOINT := 1]);
            && t == SetDirect(Update(NO_TABLES, PeerWith(1, NO_ADDR).config), 1, ENDPOINT)
            && Update(t, PeerWith(2, NO_ADDR).config) == Tables(map[1 := PeerWith(2, NO_ADDR)], map[2 := 1], map[])
  {
    hide Usable, Sanitize, INVALID_ADDR;
    EndpointUsable();
    ValidIfUsable(ENDPOINT);
    var c, c' := PeerWith(1, NO_ADDR).config, PeerWith(2, NO_ADDR).config;
    assert Sanitized(c) == c && Sanitized(c') == c';
    var t0 := Tables(map[1 := PeerWith(1, NO_ADDR)], map[1 := 1], map[ENDPOINT := 1]);
    assert Update(NO_TABLES, c) == t0 by {
      assert UpdatedAddr(map[], NO_PEER, c) == map[ENDPOINT := 1];
    }
    assert SetDirect(t0, 1, ENDPOINT).byAddr == map[ENDPOINT := 1];
    assert UpdatedAddr(map[ENDPOINT := 1], PeerWith(1, ENDPOINT), c') == map[];
  }
}
