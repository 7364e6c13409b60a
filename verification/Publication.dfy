/**
 * What a pass is to leave for one key, told from the nodes, the options and the path alone
 * (`map.go:550-738`), without the functions that build it.
 */
module Publication {
  import opened Addresses
  import opened Nodes
  import opened Options
  import opened PeerIndex
  import opened Reconciler

  function IdOf(c: Config, n: Node): string {
    if |n.stableId| > 0 then n.stableId else c.keyText(n.key)
  }

  /** A node that may be published: it has a key, takes part in the network, and is confirmed if need be. */
  predicate MayPublish(c: Config, s: State, n: Node) {
    n.key > 0 && !(n.peerAPIOnly || n.expired) && (!c.confirmPeers || IdOf(c, n) in s.confirmed)
  }

  ghost predicate WantsKey(c: Config, s: State, k: NodeKey) {
    exists i :: i in s.nodes && s.nodes[i].key == k && MayPublish(c, s, s.nodes[i])
  }

  /** The peer has a direct path that is not being given up. */
  predicate OnDirectPath(c: Config, l: Local) {
    c.useDefaultTransport && !l.recovering && l.path == DirectPath && l.direct.IsValid()
  }

  function Unmapped(a: AddrPort): AddrPort {
    AddrPort(a.addr.Unmap(), a.port)
  }

  /** Endpoint `e` of a node is the first that can be used. */
  predicate IsFirst(endpoints: seq<AddrPort>, e: int) {
    && 0 <= e < |endpoints| && Usable(Unmapped(endpoints[e]))
    && forall j :: 0 <= j < e ==> !Usable(Unmapped(endpoints[j]))
  }

  /** Nothing but a listed endpoint reaches the node without a relay. */
  predicate OnListedEndpoint(c: Config, l: Local, n: Node, e: int) {
    && c.useDefaultTransport && !l.recovering && !OnDirectPath(c, l)
    && (n.wireGuardOnly || c.disableDERP) && IsFirst(n.endpoints, e)
  }

  /** Where the peer is reached: at its direct address, at a listed endpoint, or through the named transport. */
  ghost predicate EndpointIs(c: Config, l: Local, n: Node, endpoint: Endpoint) {
    && (OnDirectPath(c, l) ==> endpoint == Endpoint(c.defaultTransport, c.addrText(Unmapped(l.direct))))
    && (forall e :: OnListedEndpoint(c, l, n, e) ==>
          endpoint == Endpoint(c.defaultTransport, c.addrText(Unmapped(n.endpoints[e]))))
    && (!OnDirectPath(c, l) && (forall e :: !OnListedEndpoint(c, l, n, e)) ==>
          endpoint == Endpoint(c.transport, c.keyText(n.key)))
  }

  /** The peer on the device is the node: its prefixes, or its addresses if it has none, at its endpoint. */
  ghost predicate SpecIs(c: Config, l: Local, n: Node, spec: Spec) {
    && (n.allowedIPs != [] ==> multiset(spec.allowedIPs) == multiset(n.allowedIPs))
    && (n.allowedIPs == [] ==> multiset(spec.allowedIPs) == multiset(n.addresses))
    && spec.profile == c.profile && spec.endpoint.Some? && EndpointIs(c, l, n, spec.endpoint.value)
  }

  /** The transport is told of the node, with its home relay or else the client's. */
  predicate ConfigIs(s: State, n: Node, config: PeerConfig) {
    && config.nodeKey == n.key && config.discoKey == n.discoKey && config.endpoints == n.endpoints
    && config.wireGuardOnly == n.wireGuardOnly
    && (n.homeDERP != 0 ==> config.homeDERP == n.homeDERP)
    && (n.homeDERP == 0 && n.legacyDERP != 0 ==> config.homeDERP == n.legacyDERP)
    && (n.homeDERP == 0 && n.legacyDERP == 0 ==> config.homeDERP == s.preferredDERP)
  }

  /** Another controller holds the key. */
  predicate HeldByOther(c: Config, s: State, k: NodeKey) {
    && k in s.device
    && (k in s.applied ==> s.device[k].endpoint != s.applied[k].endpoint)
    && (k !in s.applied ==> s.device[k].endpoint.None? || s.device[k].endpoint.value.transport != c.transport)
  }

  predicate SameOnDevice(s: State, s': State, k: NodeKey) {
    (k in s'.device <==> k in s.device) && (k in s.device ==> s'.device[k] == s.device[k])
  }

  /** Key `k` stands for node `n` on the device, on record, in the local state and in the transport. */
  ghost predicate StandsFor(c: Config, s: State, s': State, k: NodeKey, n: Node) {
    && k in s'.device && SpecIs(c, s.LocalOf(k), n, s'.device[k])
    && k in s'.applied && s'.applied[k] == AppliedPeer(IdOf(c, n), s'.device[k].endpoint)
    && k in s'.bound && ConfigIs(s, n, s'.bound[k])
    && k in s'.local && s'.local[k].applied && !s'.local[k].failed
  }

  /** The key is gone from all records, and from the device unless it is not as published. */
  ghost predicate Withdrawn(s: State, s': State, k: NodeKey) {
    && k !in s'.applied && k !in s'.bound && k !in s'.local
    && (if k in s.device && k in s.applied && s.device[k].endpoint == s.applied[k].endpoint then k !in s'.device
        else SameOnDevice(s, s', k))
  }

  /** The key is left to the other controller, with an error. */
  ghost predicate LeftAlone(s: State, s': State, k: NodeKey) {
    SameOnDevice(s, s', k) && k !in s'.applied && k !in s'.bound && k in s'.local && s'.local[k].failed
  }

  /** What a pass from `s` to `s'` makes of `k` if the device refuses nothing for it. */
  ghost predicate KeyMeaning(c: Config, s: State, s': State, k: NodeKey) {
    if WantsKey(c, s, k) then
      if HeldByOther(c, s, k) then LeftAlone(s, s', k)
      else exists i :: i in s.nodes && s.nodes[i].key == k && MayPublish(c, s, s.nodes[i])
                       && StandsFor(c, s, s', k, s.nodes[i])
    else Withdrawn(s, s', k)
  }

  /** The device refused: what was there and on record stays, with an error. */
  ghost predicate Refused(s: State, s': State, k: NodeKey) {
    && SameOnDevice(s, s', k) && Lookup(s'.applied, k) == Lookup(s.applied, k)
    && (k in s'.bound <==> k in s.applied) && k in s'.local && s'.local[k].failed
    && s'.local[k].applied == (k in s.applied)
  }

  // ----- The functions of the reconciler have this meaning -----

  lemma EligibleMeaning(c: Config, s: State, n: Node)
    ensures Eligible(c, s, n) <==> MayPublish(c, s, n)
    ensures PeerId(c, n) == IdOf(c, n)
  {
  }

  lemma UnmappedIs(a: AddrPort)
    ensures a.IsValid() ==> a.Unmap() == Unmapped(a)
    ensures a.Unmap().IsValid() <==> a.IsValid()
  {
  }

  lemma {:induction false} FirstUsableMeaning(endpoints: seq<AddrPort>)
    ensures FirstUsable(endpoints).IsValid() ==>
              exists e :: IsFirst(endpoints, e) && FirstUsable(endpoints) == Unmapped(endpoints[e])
    ensures !FirstUsable(endpoints).IsValid() ==> forall e :: !IsFirst(endpoints, e)
  {
    hide Usable;
    if endpoints != [] {
      var e0 := Unmapped(endpoints[0]);
      ValidIfUsable(e0);
      if Usable(e0) {
        assert IsFirst(endpoints, 0);
      } else {
        FirstUsableMeaning(endpoints[1..]);
        forall e ensures IsFirst(endpoints, e) <==> e > 0 && IsFirst(endpoints[1..], e - 1) {
          FirstOfRest(endpoints, e);
        }
        if FirstUsable(endpoints[1..]).IsValid() {
          var e :| IsFirst(endpoints[1..], e) && FirstUsable(endpoints[1..]) == Unmapped(endpoints[1..][e]);
          assert IsFirst(endpoints, e + 1);
        }
      }
    }
  }

  lemma FirstOfRest(endpoints: seq<AddrPort>, e: int)
    requires endpoints != [] && !Usable(Unmapped(endpoints[0]))
    ensures IsFirst(endpoints, e) <==> e > 0 && IsFirst(endpoints[1..], e - 1)
  {
    hide Usable;
    if e > 0 && IsFirst(endpoints[1..], e - 1) {
      forall j | 0 <= j < e ensures !Usable(Unmapped(endpoints[j])) {
        assert j > 0 ==> endpoints[1..][j - 1] == endpoints[j];
      }
    }
  }

  lemma FirstIsUnique(endpoints: seq<AddrPort>, d: int, e: int)
    requires IsFirst(endpoints, d) && IsFirst(endpoints, e)
    ensures d == e
  {
    hide Usable;
  }

  lemma EndpointMeaning(c: Config, s: State, n: Node)
    ensures EndpointIs(c, s.LocalOf(n.key), n, EndpointFor(c, WantedOf(c, s, n)))
  {
    hide Usable, FirstUsable;
    var l := s.LocalOf(n.key);
    UnmappedIs(l.direct);
    FirstUsableMeaning(n.endpoints);
    forall d, e | IsFirst(n.endpoints, d) && IsFirst(n.endpoints, e) ensures d == e {
      FirstIsUnique(n.endpoints, d, e);
    }
    if FirstUsable(n.endpoints).IsValid() {
      var e :| IsFirst(n.endpoints, e) && FirstUsable(n.endpoints) == Unmapped(n.endpoints[e]);
      assert OnListedEndpoint(c, l, n, e) <==>
             c.useDefaultTransport && !l.recovering && !OnDirectPath(c, l) && (n.wireGuardOnly || c.disableDERP);
    }
  }

  lemma SpecMeaning(c: Config, s: State, n: Node, spec: Spec)
    requires SpecsEqual(spec, SpecFor(c, WantedOf(c, s, n)))
    ensures SpecIs(c, s.LocalOf(n.key), n, spec)
  {
    hide EndpointFor, EndpointIs;
    EndpointMeaning(c, s, n);
  }

  lemma ConfigMeaning(c: Config, s: State, n: Node)
    ensures ConfigIs(s, n, ConfigFor(n.key, WantedOf(c, s, n)))
  {
  }
}
