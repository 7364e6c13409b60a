/**
 * Publishing peers on a device shared with other controllers (`map.go`, `client.go`): which peers
 * are wanted, who owns a peer on the device, and what reconciling does to one key at a time.
 */
module Reconciler {
  import opened Addresses
  import opened Nodes
  import opened Options
  import opened PeerIndex

  /** How long a direct path may go without a handshake. */
  const HANDSHAKE_GRACE: Time := 120_000_000_000

  /** The client's options, and how keys and addresses are written as text. */
  datatype Config = Config(
    confirmPeers: bool, useDefaultTransport: bool, disableDERP: bool, transport: string, defaultTransport: string,
    profile: nat, keyText: NodeKey -> string, addrText: AddrPort -> string)

  datatype Endpoint = Endpoint(transport: string, address: string)

  /** A peer on the device; `profile` is its protocol version, obfuscation and activation. */
  datatype Spec = Spec(endpoint: Option<Endpoint>, allowedIPs: seq<Prefix>, profile: nat)

  /** What the client published for a key. */
  datatype AppliedPeer = AppliedPeer(id: string, endpoint: Option<Endpoint>)

  datatype PathKind = NoPath | RelayPath | DirectPath

  datatype Local = Local(
    applied: bool, path: PathKind, direct: AddrPort, latency: int, directSince: Option<Time>,
    recovering: bool, recoveryDirect: AddrPort, failed: bool)

  const NEW_LOCAL := Local(false, NoPath, NO_ADDR, 0, None, false, NO_ADDR, false)

  datatype State = State(
    nodes: map<int, Node>, confirmed: set<string>, preferredDERP: int,
    local: map<NodeKey, Local>, applied: map<NodeKey, AppliedPeer>, bound: map<NodeKey, PeerConfig>,
    device: map<NodeKey, Spec>, revision: nat)
  {
    function LocalOf(k: NodeKey): Local {
      if k in local then local[k] else NEW_LOCAL
    }
  }

  // ----- Wanted peers -----

  datatype Wanted = Wanted(node: Node, id: string, home: int, path: PathKind, direct: AddrPort, recovering: bool)

  type Wants = map<NodeKey, Wanted>

  function PeerId(c: Config, n: Node): string {
    if n.stableId != "" then n.stableId else c.keyText(n.key)
  }

  predicate Eligible(c: Config, s: State, n: Node) {
    n.key != 0 && !n.peerAPIOnly && !n.expired && (c.confirmPeers ==> PeerId(c, n) in s.confirmed)
  }

  function WantedOf(c: Config, s: State, n: Node): Wanted {
    var l := s.LocalOf(n.key);
    Wanted(n, PeerId(c, n), if n.Home() != 0 then n.Home() else s.preferredDERP, l.path, l.direct, l.recovering)
  }

  /** `desired` holds, for each key of an eligible node, one of the eligible nodes with that key. */
  ghost predicate Desires(c: Config, s: State, desired: Wants) {
    && (forall k :: k in desired ==> exists i :: i in s.nodes && IsChoice(c, s, k, desired[k], i))
    && (forall i :: i in s.nodes && Eligible(c, s, s.nodes[i]) ==> s.nodes[i].key in desired)
  }

  ghost predicate IsChoice(c: Config, s: State, k: NodeKey, w: Wanted, i: int)
    requires i in s.nodes
  {
    s.nodes[i].key == k && Eligible(c, s, s.nodes[i]) && w == WantedOf(c, s, s.nodes[i])
  }

  /** The first usable endpoint, unmapped; else the zero address. */
  function FirstUsable(endpoints: seq<AddrPort>): AddrPort {
    if endpoints == [] then NO_ADDR
    else
      var e := AddrPort(endpoints[0].addr.Unmap(), endpoints[0].port);
      if Usable(e) then e else FirstUsable(endpoints[1..])
  }

  function NamedEndpoint(c: Config, n: Node): Endpoint {
    Endpoint(c.transport, c.keyText(n.key))
  }

  /** `peerEndpoint`. */
  function EndpointFor(c: Config, w: Wanted): Endpoint {
    var direct, first := w.direct.Unmap(), FirstUsable(w.node.endpoints);
    if !c.useDefaultTransport || w.recovering then NamedEndpoint(c, w.node)
    else if w.path == DirectPath && direct.IsValid() then Endpoint(c.defaultTransport, c.addrText(direct))
    else if (w.node.wireGuardOnly || c.disableDERP) && first.IsValid() then
      Endpoint(c.defaultTransport, c.addrText(first))
    else NamedEndpoint(c, w.node)
  }

  function SpecFor(c: Config, w: Wanted): Spec {
    Spec(Some(EndpointFor(c, w)), if w.node.allowedIPs != [] then w.node.allowedIPs else w.node.addresses, c.profile)
  }

  function ConfigFor(k: NodeKey, w: Wanted): PeerConfig {
    PeerConfig(k, w.node.discoKey, w.node.endpoints, w.home, w.node.wireGuardOnly)
  }

  /** Equal up to the order of the allowed prefixes. */
  predicate SpecsEqual(a: Spec, b: Spec) {
    a.endpoint == b.endpoint && a.profile == b.profile && multiset(a.allowedIPs) == multiset(b.allowedIPs)
  }

  // ----- One key -----

  function WithError(s: State, k: NodeKey): State {
    s.(local := s.local[k := s.LocalOf(k).(failed := true)], revision := s.revision + 1)
  }

  function Forget(s: State, k: NodeKey): State {
    s.(bound := s.bound - {k}, applied := s.applied - {k}, local := s.local - {k})
  }

  /** Giving up a peer that another controller has taken over. */
  function Release(s: State, k: NodeKey): State {
    s.(bound := s.bound - {k}, applied := s.applied - {k},
       local := if k in s.local then s.local[k := s.local[k].(applied := false)] else s.local)
  }

  predicate StillOwned(s: State, k: NodeKey, owned: AppliedPeer)
    requires k in s.device
  {
    s.device[k].endpoint == owned.endpoint
  }

  /** A peer that is no longer wanted is deleted, unless it is not ours any more. */
  function Dropped(s: State, k: NodeKey, owned: AppliedPeer, fails: bool): State {
    if k in s.device && !StillOwned(s, k, owned) then Forget(s, k)
    else if fails then WithError(s, k)
    else Forget(s.(device := s.device - {k}), k)
  }

  predicate OwnTransport(c: Config, spec: Spec) {
    spec.endpoint.Some? && spec.endpoint.value.transport == c.transport
  }

  /** Another controller has this key: not what we published, or never ours. */
  predicate Conflict(c: Config, s: State, k: NodeKey, owned: Option<AppliedPeer>) {
    k in s.device && if owned.Some? then !StillOwned(s, k, owned.value) else !OwnTransport(c, s.device[k])
  }

  predicate NeedsUpsert(c: Config, s: State, k: NodeKey, w: Wanted, owned: Option<AppliedPeer>) {
    owned.None? || k !in s.device || !SpecsEqual(s.device[k], SpecFor(c, w))
  }

  function Record(c: Config, w: Wanted): AppliedPeer {
    AppliedPeer(w.id, SpecFor(c, w).endpoint)
  }

  /** The state after the key is published. */
  function Done(c: Config, s: State, k: NodeKey, w: Wanted, owned: Option<AppliedPeer>): State {
    s.(bound := s.bound[k := ConfigFor(k, w)],
       device := if NeedsUpsert(c, s, k, w, owned) then s.device[k := SpecFor(c, w)] else s.device,
       applied := s.applied[k := Record(c, w)],
       local := s.local[k := s.LocalOf(k).(applied := true, failed := false)])
  }

  /** The state after the update of the transport that a failed publication leaves behind. */
  function Attempted(s: State, k: NodeKey, w: Wanted, owned: Option<AppliedPeer>): State {
    if owned.None? then s.(bound := s.bound - {k}) else s.(bound := s.bound[k := ConfigFor(k, w)])
  }

  function Published(c: Config, s: State, k: NodeKey, w: Wanted, owned: Option<AppliedPeer>, fails: bool): State {
    if Conflict(c, s, k, owned) then WithError(if owned.Some? then Release(s, k) else s, k)
    else if NeedsUpsert(c, s, k, w, owned) && fails then WithError(Attempted(s, k, w, owned), k)
    else Done(c, s, k, w, owned)
  }

  /** Whether publishing the key counts as a change. */
  predicate Changes(c: Config, s: State, k: NodeKey, w: Wanted, owned: Option<AppliedPeer>, fails: bool) {
    var needs := NeedsUpsert(c, s, k, w, owned);
    && !Conflict(c, s, k, owned) && !(needs && fails)
    && (needs || k !in s.applied || s.applied[k] != Record(c, w) || !s.LocalOf(k).applied || s.LocalOf(k).failed)
  }

  /** Local state is kept for peers that are wanted or applied. */
  ghost function Tidied(s: State, wanted: set<NodeKey>): State {
    s.(local := map k | k in s.local && (k in wanted || k in s.applied) :: s.local[k])
  }

  // ----- What each step keeps -----

  /** The applied peers are those marked applied locally, and those of the transport but for `released`. */
  ghost predicate Agree(s: State, released: set<NodeKey>) {
    && (forall k :: k in s.applied <==> k in s.local && s.local[k].applied)
    && (forall k :: k in s.bound <==> k in s.applied && k !in released)
  }

  /** From `s` to `s'` only `k` changes, of what is kept by key. */
  ghost predicate OnlyKey(s: State, s': State, k: NodeKey) {
    && s'.nodes == s.nodes && s'.confirmed == s.confirmed && s'.preferredDERP == s.preferredDERP
    && (forall j :: j != k ==> SameKey(s, s', j))
  }

  /** Nothing about `j` differs. */
  ghost predicate SameKey(s: State, s': State, j: NodeKey) {
    && (j in s'.device <==> j in s.device) && (j in s.device ==> s'.device[j] == s.device[j])
    && (j in s'.applied <==> j in s.applied) && (j in s.applied ==> s'.applied[j] == s.applied[j])
    && (j in s'.local <==> j in s.local) && (j in s.local ==> s'.local[j] == s.local[j])
    && (j in s'.bound <==> j in s.bound) && (j in s.bound ==> s'.bound[j] == s.bound[j])
  }

  function Lookup(applied: map<NodeKey, AppliedPeer>, k: NodeKey): Option<AppliedPeer> {
    if k in applied then Some(applied[k]) else None
  }

  ghost predicate OwnedIs(s: State, k: NodeKey, owned: Option<AppliedPeer>) {
    owned == Lookup(s.applied, k)
  }

  lemma ErrorKeeps(s: State, k: NodeKey)
    requires Agree(s, {})
    ensures Agree(WithError(s, k), {}) && OnlyKey(s, WithError(s, k), k)
  {
  }

  lemma ReleaseKeeps(s: State, k: NodeKey)
    requires Agree(s, {})
    ensures Agree(Release(s, k), {}) && OnlyKey(s, Release(s, k), k)
  {
  }

  lemma ForgetKeeps(s: State, k: NodeKey)
    requires Agree(s, {})
    ensures Agree(Forget(s, k), {}) && OnlyKey(s, Forget(s, k), k)
  {
  }

  lemma OnlyKeyTwice(s: State, s1: State, s2: State, k: NodeKey)
    requires OnlyKey(s, s1, k) && OnlyKey(s1, s2, k)
    ensures OnlyKey(s, s2, k)
  {
    forall j | j != k ensures SameKey(s, s2, j) {
      assert SameKey(s, s1, j) && SameKey(s1, s2, j);
    }
  }

  lemma DroppedKeeps(s: State, k: NodeKey, owned: AppliedPeer, fails: bool)
    requires Agree(s, {}) && OwnedIs(s, k, Some(owned))
    ensures Agree(Dropped(s, k, owned, fails), {}) && OnlyKey(s, Dropped(s, k, owned, fails), k)
  {
    hide Forget, WithError, OnlyKey;
    ErrorKeeps(s, k);
    ForgetKeeps(s, k);
    var deleted := s.(device := s.device - {k});
    DeleteKeeps(s, k);
    ForgetKeeps(deleted, k);
    OnlyKeyTwice(s, deleted, Forget(deleted, k), k);
  }

  lemma DeleteKeeps(s: State, k: NodeKey)
    ensures OnlyKey(s, s.(device := s.device - {k}), k)
  {
  }

  lemma DoneAgrees(c: Config, s: State, k: NodeKey, w: Wanted, owned: Option<AppliedPeer>)
    requires Agree(s, {})
    ensures Agree(Done(c, s, k, w, owned), {})
  {
    hide SpecFor, ConfigFor, NeedsUpsert, Record;
  }

  lemma DoneOnlyKey(c: Config, s: State, k: NodeKey, w: Wanted, owned: Option<AppliedPeer>)
    ensures OnlyKey(s, Done(c, s, k, w, owned), k)
  {
    hide SpecFor, ConfigFor, NeedsUpsert, Record;
  }

  lemma AttemptedKeeps(s: State, k: NodeKey, w: Wanted, owned: Option<AppliedPeer>)
    requires Agree(s, {}) && OwnedIs(s, k, owned)
    ensures Agree(Attempted(s, k, w, owned), {}) && OnlyKey(s, Attempted(s, k, w, owned), k)
  {
    hide ConfigFor;
  }

  lemma PublishedKeeps(c: Config, s: State, k: NodeKey, w: Wanted, owned: Option<AppliedPeer>, fails: bool)
    requires Agree(s, {}) && OwnedIs(s, k, owned)
    ensures Agree(Published(c, s, k, w, owned, fails), {}) && OnlyKey(s, Published(c, s, k, w, owned, fails), k)
  {
    hide Conflict, NeedsUpsert, Release, Attempted, Done, WithError, Agree, OnlyKey;
    ReleaseKeeps(s, k);
    AttemptedKeeps(s, k, w, owned);
    DoneAgrees(c, s, k, w, owned);
    DoneOnlyKey(c, s, k, w, owned);
    ErrorKeeps(s, k);
    ErrorKeeps(Release(s, k), k);
    OnlyKeyTwice(s, Release(s, k), WithError(Release(s, k), k), k);
    ErrorKeeps(Attempted(s, k, w, owned), k);
    OnlyKeyTwice(s, Attempted(s, k, w, owned), WithError(Attempted(s, k, w, owned), k), k);
  }

  /** A device entry with neither the recorded endpoint nor our transport stays as it is. */
  ghost predicate LeavesForeign(c: Config, s: State, s': State) {
    forall k ::
      k in s.device && !(k in s.applied && StillOwned(s, k, s.applied[k])) && !OwnTransport(c, s.device[k]) ==>
      k in s'.device && s'.device[k] == s.device[k]
  }

  lemma DroppedLeavesForeign(c: Config, s: State, k: NodeKey, owned: AppliedPeer, fails: bool)
    requires OwnedIs(s, k, Some(owned))
    ensures LeavesForeign(c, s, Dropped(s, k, owned, fails))
  {
  }

  lemma PublishedLeavesForeign(c: Config, s: State, k: NodeKey, w: Wanted, owned: Option<AppliedPeer>, fails: bool)
    requires OwnedIs(s, k, owned)
    ensures LeavesForeign(c, s, Published(c, s, k, w, owned, fails))
  {
    hide SpecFor, SpecsEqual, ConfigFor;
  }

  // ----- Paths and the recovery of stale direct paths -----

  datatype PathUpdate = PathUpdate(key: NodeKey, direct: bool, addr: AddrPort, latency: int, at: Time)
  {
    function Kind(): PathKind {
      if direct then DirectPath else RelayPath
    }
  }

  /** Recovery belongs to one direct address: it ends when the path is another. */
  function Moved(l: Local, path: PathKind, direct: AddrPort, latency: int, at: Time): Local {
    if l.path == path && l.direct == direct then l.(latency := latency)
    else if path == DirectPath && direct == l.recoveryDirect then
      l.(path := path, direct := direct, latency := latency, directSince := Some(at))
    else
      l.(path := path, direct := direct, latency := latency, directSince := Some(at),
         recovering := false, recoveryDirect := NO_ADDR)
  }

  ghost predicate Known(s: State, k: NodeKey) {
    k in s.local || exists i :: i in s.nodes && s.nodes[i].key == k
  }

  /** `onPath`; an update is ignored while stopping, for an unknown peer, or without news. */
  ghost function OnPath(s: State, u: PathUpdate, stopping: bool): State {
    var l := s.LocalOf(u.key);
    var l' := Moved(l, u.Kind(), u.addr.Unmap(), u.latency, u.at);
    if stopping || !Known(s, u.key) || l' == l then s
    else s.(local := s.local[u.key := l'], revision := s.revision + 1)
  }

  /** A published direct path whose grace is over. */
  predicate Overdue(c: Config, s: State, k: NodeKey, now: Time)
    requires k in s.local
  {
    var l := s.local[k];
    && l.applied && l.path == DirectPath && l.direct.IsValid() && !l.recovering
    && l.directSince.Some? && now - l.directSince.value >= HANDSHAKE_GRACE
    && k in s.applied && s.applied[k].endpoint == Some(Endpoint(c.defaultTransport, c.addrText(l.direct)))
  }

  /** `recoverStaleDirectPaths`; the device reports the peers in `idle` as not connected. */
  ghost function Recovered(c: Config, s: State, now: Time, idle: set<NodeKey>): State {
    s.(local := map k | k in s.local :: RecoveredLocal(c, s, k, now, idle))
  }

  function RecoveredLocal(c: Config, s: State, k: NodeKey, now: Time, idle: set<NodeKey>): Local
    requires k in s.local
  {
    var l := s.local[k];
    if Overdue(c, s, k, now) && k in idle then l.(recovering := true, recoveryDirect := l.direct) else l
  }

  function ClearedLocal(l: Local): Local {
    l.(applied := false, path := NoPath, direct := NO_ADDR, latency := 0)
  }

  /** `clearAppliedDeviceLocked`. */
  ghost function Cleared(s: State): State {
    s.(applied := map[], local := map k | k in s.local :: ClearedLocal(s.local[k]), bound := s.bound - s.local.Keys,
       revision := if s.applied != map[] then s.revision + 1 else s.revision)
  }

  /** A recovering peer is on the address it recovers from, or has lost its path with the device. */
  ghost predicate RecoveryOk(l: Local) {
    if l.recovering then
      l.recoveryDirect.IsValid() &&
      ((l.path == DirectPath && l.direct == l.recoveryDirect) || (l.path == NoPath && l.direct == NO_ADDR))
    else l.recoveryDirect == NO_ADDR
  }

  ghost predicate RecoverySound(s: State) {
    forall k :: k in s.local ==> RecoveryOk(s.local[k])
  }

  /** A path update ends recovery exactly when it is for another kind of path or another address. */
  lemma MovedRecovery(l: Local, path: PathKind, direct: AddrPort, latency: int, at: Time)
    requires RecoveryOk(l) && path != NoPath
    ensures var l' := Moved(l, path, direct, latency, at);
            && RecoveryOk(l') && l'.applied == l.applied
            && (l'.recovering <==> l.recovering && path == DirectPath && direct == l.recoveryDirect)
            && (l'.recovering ==> l'.recoveryDirect == l.recoveryDirect)
  {
  }

  /** A recovering peer is always published on the named transport. */
  lemma RecoveringIsNamed(c: Config, s: State, desired: Wants, k: NodeKey)
    requires Desires(c, s, desired) && k in desired && k in s.local && s.local[k].recovering
    ensures SpecFor(c, desired[k]).endpoint == Some(Endpoint(c.transport, c.keyText(k)))
  {
    hide Eligible, FirstUsable;
  }

  // ----- What these steps do -----

  /** News of a known peer, while running, sets its path, and its start if the path is another. */
  lemma OnPathMeaning(s: State, u: PathUpdate)
    requires u.key in s.local || exists i :: i in s.nodes && s.nodes[i].key == u.key
    ensures var s', l := OnPath(s, u, false), s.LocalOf(u.key);
            var path, direct := if u.direct then DirectPath else RelayPath, u.addr.Unmap();
            && u.key in s'.local && s' == s.(local := s.local[u.key := s'.local[u.key]], revision := s'.revision)
            && s'.local[u.key].path == path && s'.local[u.key].direct == direct && s'.local[u.key].latency == u.latency
            && s'.local[u.key].applied == l.applied && s'.local[u.key].failed == l.failed
            && (l.path != path || l.direct != direct ==> s'.local[u.key].directSince == Some(u.at))
            && (l.path == path && l.direct == direct ==> s'.local[u.key].directSince == l.directSince)
            && (s'.revision == s.revision <==> s'.local == s.local)
            && (l.path != path || l.direct != direct || l.latency != u.latency ==> s'.revision == s.revision + 1)
  {
    var l := s.LocalOf(u.key);
    if u.key in s.local {
      assert s.local[u.key := l] == s.local;
    }
  }

  lemma OnPathIgnores(s: State, u: PathUpdate, stopping: bool)
    requires stopping || (u.key !in s.local && forall i :: i in s.nodes ==> s.nodes[i].key != u.key)
    ensures OnPath(s, u, stopping) == s
  {
  }

  /**
   * A peer is marked exactly if it is applied on the default transport at its direct address, has
   * been on that path for two minutes, and the device reports it as not connected.
   */
  lemma RecoveredMeaning(c: Config, s: State, now: Time, idle: set<NodeKey>, k: NodeKey)
    requires k in s.local
    ensures var l, l' := s.local[k], Recovered(c, s, now, idle).local[k];
            && (l'.recovering <==>
                  || l.recovering
                  || (&& l.applied && l.path == DirectPath && l.direct.IsValid() && l.directSince.Some?
                      && now >= l.directSince.value + 120_000_000_000 && k in idle && k in s.applied
                      && s.applied[k].endpoint.Some? && s.applied[k].endpoint.value.transport == c.defaultTransport
                      && s.applied[k].endpoint.value.address == c.addrText(l.direct)))
            && (l'.recovering && !l.recovering ==> l' == l.(recovering := true, recoveryDirect := l.direct))
            && (l'.recovering == l.recovering ==> l' == l)
            && Recovered(c, s, now, idle) == s.(local := Recovered(c, s, now, idle).local)
            && Recovered(c, s, now, idle).local.Keys == s.local.Keys
  {
  }

  /** Nothing is applied any more, no peer has a path, and no peer with local state is left in the transport. */
  lemma ClearedMeaning(s: State, k: NodeKey)
    ensures var s' := Cleared(s);
            && s'.applied == map[] && s'.local.Keys == s.local.Keys && s'.device == s.device
            && (k in s.local ==>
                  s'.local[k] == s.local[k].(applied := false, path := NoPath, direct := NO_ADDR, latency := 0))
            && (k in s'.bound <==> k in s.bound && k !in s.local)
            && (s.applied == map[] ==> s'.revision == s.revision)
            && (s.applied != map[] ==> s'.revision == s.revision + 1)
  {
  }
}
