/**
 * The transport (`internal/tailnet/bind.go`, `internal/tailnet/disco.go`): the methods that edit the
 * peer tables in place, each proved to do exactly what `PeerIndex` says of it.
 */
module Transport {
  import opened Addresses
  import opened PeerIndex
  import opened Options
  import opened Ordering
  import Sets

  /** An opened discovery message: its node claim is absent in the short form of a ping. */
  datatype Message =
    | Ping(claimed: Option<NodeKey>)
    | Pong(tx: nat)
    | CallMeMaybe(addrs: seq<AddrPort>)

  /** The message came over UDP from an address, or through a relay from a node it vouches for. */
  datatype Origin = Direct(source: AddrPort) | Relayed(node: NodeKey)

  const MAX_CALL_ME_MAYBE := 256

  predicate Loopback(a: Addr) {
    (a.width == 32 && a.value / 0x100_0000 == 127) || (a.width == 128 && a.value == 1)
  }

  predicate LinkLocal(a: Addr) {
    || (a.width == 32 && a.value / 0x1_0000 == 0xa9fe)
    || (a.width == 128 && a.value / 0x40_0000_0000_0000_0000_0000_0000_0000 == 0x3fa)
  }

  /** An address worth learning from a relayed message. */
  predicate Learnable(a: AddrPort) {
    Usable(a) && !Loopback(a.addr) && !LinkLocal(a.addr)
  }

  /** Not 127.0.0.0/8, ::1, 169.254.0.0/16 or fe80::/10. */
  lemma LearnableMeaning(a: AddrPort)
    requires a.addr.width == 32 || a.addr.width == 128
    requires a.addr.width == 32 ==> a.addr.value <= 0xffff_ffff
    requires a.addr.width == 128 ==> a.addr.value <= 0xffff_ffff_ffff_ffff_ffff_ffff_ffff_ffff
    ensures Learnable(a) <==>
            && Usable(a)
            && (a.addr.width == 32 ==> !(0x7f00_0000 <= a.addr.value <= 0x7fff_ffff))
            && (a.addr.width == 32 ==> !(0xa9fe_0000 <= a.addr.value <= 0xa9fe_ffff))
            && (a.addr.width == 128 ==> a.addr.value != 1)
            && (a.addr.width == 128 ==> !(0xfe80_0000_0000_0000_0000_0000_0000_0000 <= a.addr.value
                                          <= 0xfebf_ffff_ffff_ffff_ffff_ffff_ffff_ffff))
  {
    hide Usable;
  }

  /** The addresses kept of the first `n` of a message: unmapped, learnable, at most 256. */
  function Kept(addrs: seq<AddrPort>, n: nat): (kept: seq<AddrPort>)
    requires n <= |addrs|
    ensures |kept| <= MAX_CALL_ME_MAYBE
  {
    if n == 0 then []
    else
      var kept := Kept(addrs, n - 1);
      var a := AddrPort(addrs[n - 1].addr.Unmap(), addrs[n - 1].port);
      if |kept| >= MAX_CALL_ME_MAYBE || !Learnable(a) then kept else kept + [a]
  }

  /** Only learnable unmapped addresses are kept, and one is dropped only for lack of room. */
  lemma {:induction false} KeptAreLearnable(addrs: seq<AddrPort>, n: nat)
    requires n <= |addrs|
    ensures forall i :: 0 <= i < |Kept(addrs, n)| ==> Learnable(Kept(addrs, n)[i]) && Kept(addrs, n)[i].IsUnmapped()
    ensures |Kept(addrs, n)| < MAX_CALL_ME_MAYBE ==>
              forall i :: 0 <= i < n ==>
                var a := AddrPort(addrs[i].addr.Unmap(), addrs[i].port);
                Learnable(a) ==> a in Kept(addrs, n)
  {
    hide Learnable;
    if n != 0 {
      KeptAreLearnable(addrs, n - 1);
      UnmapTwice(addrs[n - 1].addr);
    }
  }

  /** Kept addresses stay in order. */
  lemma {:induction false} KeptOrder(addrs: seq<AddrPort>, m: nat, n: nat)
    requires m <= n <= |addrs|
    ensures Kept(addrs, m) <= Kept(addrs, n)
  {
    hide Learnable;
    if m < n {
      KeptOrder(addrs, m, n - 1);
    }
  }

  lemma {:induction false} KeptFull(addrs: seq<AddrPort>, m: nat, n: nat)
    requires m <= n <= |addrs| && |Kept(addrs, m)| >= MAX_CALL_ME_MAYBE
    ensures Kept(addrs, n) == Kept(addrs, m)
  {
    hide Learnable;
    if m < n {
      KeptFull(addrs, m, n - 1);
    }
  }

  method KeepLearnable(addrs: seq<AddrPort>) returns (kept: seq<AddrPort>)
    ensures kept == Kept(addrs, |addrs|)
  {
    hide Learnable;
    kept := [];
    for i := 0 to |addrs|
      invariant kept == Kept(addrs, i)
    {
      if |kept| >= MAX_CALL_ME_MAYBE {
        KeptFull(addrs, i, |addrs|);
        return;
      }
      var a := AddrPort(addrs[i].addr.Unmap(), addrs[i].port);
      if Learnable(a) {
        kept := kept + [a];
      }
    }
  }

  /** What a message from `node` does to the tables. */
  ghost function Heard(t: Tables, pending: map<nat, NodeKey>, node: NodeKey, origin: Origin, m: Message,
                       now: Time): Tables
  {
    match (m, origin)
    case (Ping(claimed), Direct(source)) =>
      if claimed == Some(node) || claimed == None then SetDirect(t, node, source) else t
    case (Pong(tx), Direct(source)) =>
      if tx in pending && pending[tx] == node then SetDirect(t, node, source) else t
    case (CallMeMaybe(addrs), Relayed(_)) =>
      var kept := Kept(addrs, |addrs|);
      if kept == [] then t else Learn(t, node, kept, now)
    case _ => t
  }

  /** A ping that claims nobody else, or the pong to a ping sent to the same node, straight from an address. */
  predicate Reaches(pending: map<nat, NodeKey>, node: NodeKey, origin: Origin, m: Message) {
    && origin.Direct?
    && match m
       case Ping(claimed) => claimed.Some? ==> claimed.value == node
       case Pong(tx) => tx in pending && pending[tx] == node
       case CallMeMaybe(_) => false
  }

  /** What the peer the message came from looks like afterwards. */
  ghost predicate PeerAfter(p: PeerState, pending: map<nat, NodeKey>, node: NodeKey, origin: Origin, m: Message,
                            now: Time, p': PeerState, byAddr': AddrIndex)
  {
    if Reaches(pending, node, origin, m) && Usable(origin.source.Unmap()) then
      var a := origin.source.Unmap();
      && p' == PeerState(p.config, p.candidates, p.learned, a) && a in byAddr' && byAddr'[a] == node
    else if m.CallMeMaybe? && origin.Relayed? && Kept(m.addrs, |m.addrs|) != [] then
      var kept := Kept(m.addrs, |m.addrs|);
      && p'.config == p.config && p'.direct == p.direct
      && LearnedFrom(p.config.endpoints, now, kept, |kept|, p.learned - Expired(p, now), p'.learned)
    else p' == p
  }

  /** Messages do what they are for. */
  lemma HeardMeaning(t: Tables, pending: map<nat, NodeKey>, node: NodeKey, origin: Origin, m: Message, now: Time)
    requires node in t.peers
    ensures var t' := Heard(t, pending, node, origin, m, now);
            node in t'.peers && PeerAfter(t.peers[node], pending, node, origin, m, now, t'.peers[node], t'.byAddr)
  {
    hide SetDirect, Learn, Usable, Kept, LearnedFrom, Expired;
    if origin.Direct? {
      SetDirectMeaning(t, node, origin.source);
    }
    if m.CallMeMaybe? {
      LearnTableMeaning(t, node, Kept(m.addrs, |m.addrs|), now);
      LearnKeys(t, node, Kept(m.addrs, |m.addrs|), now);
    }
  }

  lemma LearnKeys(t: Tables, node: NodeKey, raws: seq<AddrPort>, now: Time)
    ensures Learn(t, node, raws, now).peers.Keys == t.peers.Keys
  {
    hide LearnAll, CandidateList, Expired, PrunedAddr;
  }

  /** A direct address is only ever one a message came from; relays only teach candidates. */
  lemma HeardIsLocal(t: Tables, pending: map<nat, NodeKey>, node: NodeKey, origin: Origin, m: Message, now: Time)
    ensures var t' := Heard(t, pending, node, origin, m, now);
            && t'.peers.Keys == t.peers.Keys && t'.byDisco == t.byDisco
            && (forall k :: k in t.peers && k != node ==> t'.peers[k] == t.peers[k])
            && (node in t.peers ==>
                  && t'.peers[node].config == t.peers[node].config
                  && (t'.peers[node].direct == t.peers[node].direct
                      || (origin.Direct? && t'.peers[node].direct == origin.source.Unmap()))
                  && (origin.Direct? ==> t'.peers[node].learned == t.peers[node].learned))
  {
    hide DirectAddr, PrunedAddr, LearnAll, CandidateList, Expired, Usable, Kept;
  }

  lemma RemoveOwnedStep(byAddr: AddrIndex, addrs: seq<AddrPort>, i: nat, k: NodeKey)
    requires i < |addrs|
    ensures var done := RemoveOwned(byAddr, addrs[..i], k);
            RemoveOwned(byAddr, addrs[..i + 1], k)
            == if addrs[i] in done && done[addrs[i]] == k then done - {addrs[i]} else done
  {
    assert addrs[..i + 1] == addrs[..i] + [addrs[i]];
  }

  lemma IndexAllStep(byAddr: AddrIndex, addrs: seq<AddrPort>, i: nat, k: NodeKey)
    requires i < |addrs|
    ensures IndexAll(byAddr, addrs[..i + 1], k) == IndexAll(byAddr, addrs[..i], k)[addrs[i] := k]
  {
    assert addrs[..i + 1] == addrs[..i] + [addrs[i]];
  }

  ghost function PingsOfOthers(pending: map<nat, NodeKey>, key: NodeKey): map<nat, NodeKey> {
    map tx | tx in pending && pending[tx] != key :: pending[tx]
  }

  class Bind {
    var peers: map<NodeKey, PeerState>
    var byDisco: map<DiscoKey, NodeKey>
    var byAddr: AddrIndex
    /** The node each outstanding ping was sent to, by transaction. */
    var pending: map<nat, NodeKey>

    ghost function Contents(): Tables
      reads this
    {
      Tables(peers, byDisco, byAddr)
    }

    ghost predicate Valid()
      reads this
    {
      Inv(Contents())
    }

    constructor ()
      ensures Valid() && Contents() == NO_TABLES && pending == map[]
    {
      peers, byDisco, byAddr, pending := map[], map[], map[], map[];
    }

    method DropOwned(addrs: seq<AddrPort>, key: NodeKey)
      modifies this`byAddr
      ensures byAddr == RemoveOwned(old(byAddr), addrs, key)
    {
      hide RemoveOwned;
      assert byAddr == RemoveOwned(byAddr, addrs[..0], key) by {
        RemoveNothing(byAddr, key);
      }
      for i := 0 to |addrs|
        invariant byAddr == RemoveOwned(old(byAddr), addrs[..i], key)
      {
        RemoveOwnedStep(old(byAddr), addrs, i, key);
        if addrs[i] in byAddr && byAddr[addrs[i]] == key {
          byAddr := byAddr - {addrs[i]};
        }
      }
      assert addrs[..|addrs|] == addrs;
    }

    method IndexAddresses(addrs: seq<AddrPort>, key: NodeKey)
      modifies this`byAddr
      ensures byAddr == IndexAll(old(byAddr), addrs, key)
    {
      hide IndexAll;
      assert byAddr == IndexAll(byAddr, addrs[..0], key) by {
        IndexNothing(byAddr, key);
      }
      for i := 0 to |addrs|
        invariant byAddr == IndexAll(old(byAddr), addrs[..i], key)
      {
        IndexAllStep(old(byAddr), addrs, i, key);
        byAddr := byAddr[addrs[i] := key];
      }
      assert addrs[..|addrs|] == addrs;
    }

    method UpdatePeer(raw: PeerConfig)
      requires Valid()
      modifies this
      ensures Valid() && Contents() == Update(old(Contents()), raw)
      ensures pending == old(pending)
    {
      hide Inv, Sanitize, RemoveOwned, IndexAll;
      UpdateKeeps(Contents(), raw);
      var endpoints := SanitizeEndpoints(raw.endpoints);
      var config := raw.(endpoints := endpoints);
      var key := config.nodeKey;
      if key in peers && peers[key].config == config {
        return;
      }
      var state := if key in peers then peers[key] else NO_PEER;
      var oldDisco := state.config.discoKey;
      if oldDisco != 0 {
        byDisco := byDisco - {oldDisco};
      }
      DropOwned(state.candidates, key);
      state := state.(config := config, candidates := config.endpoints, learned := map[]);
      IndexAddresses(state.candidates, key);
      if config.discoKey != 0 {
        byDisco := byDisco[config.discoKey := key];
      }
      if state.direct.IsValid() && oldDisco != config.discoKey {
        DropOwned([state.direct], key);
        state := state.(direct := NO_ADDR);
      } else if state.direct.IsValid() {
        byAddr := byAddr[state.direct := key];
      }
      peers := peers[key := state];
    }

    /** Nothing of the removed peer is left, in the tables or among the pings. */
    method RemovePeer(key: NodeKey)
      requires Valid()
      modifies this
      ensures Valid() && Contents() == Remove(old(Contents()), key)
      ensures key !in peers && key !in byAddr.Values && key !in byDisco.Values
      ensures pending == PingsOfOthers(old(pending), key)
    {
      hide Inv, RemoveOwned;
      RemoveKeeps(Contents(), key);
      if key in peers {
        var state := peers[key];
        byDisco := byDisco - {state.config.discoKey};
        DropOwned(state.candidates, key);
        if state.direct.IsValid() {
          DropOwned([state.direct], key);
        }
      }
      assert key !in peers ==> peers - {key} == peers;
      peers := peers - {key};
      DropPings(key);
    }

    /** Forgets the outstanding pings of one node. */
    method DropPings(key: NodeKey)
      modifies this`pending
      ensures pending == PingsOfOthers(old(pending), key)
    {
      var todo := pending.Keys;
      while todo != {}
        invariant todo <= pending.Keys <= old(pending).Keys
        invariant forall tx :: tx in pending ==> pending[tx] == old(pending)[tx] && (tx in todo || pending[tx] != key)
        invariant forall tx :: tx in old(pending) && old(pending)[tx] != key ==> tx in pending
      {
        var tx := Sets.Pick(todo);
        todo := todo - {tx};
        if pending[tx] == key {
          pending := pending - {tx};
        }
      }
    }

    method SetDirectPath(node: NodeKey, raw: AddrPort)
      requires Valid()
      modifies this`peers, this`byAddr
      ensures Valid() && Contents() == SetDirect(old(Contents()), node, raw)
    {
      hide Inv, RemoveOwned, Usable;
      SetDirectKeeps(Contents(), node, raw);
      var addr := raw.Unmap();
      if !Usable(addr) || node !in peers {
        return;
      }
      var state := peers[node];
      if state.direct.IsValid() && state.direct != addr && state.direct !in state.candidates {
        DropOwned([state.direct], node);
      }
      peers := peers[node := state.(direct := addr)];
      byAddr := byAddr[addr := node];
    }

    /** The candidates of a peer rebuilt from its endpoints and what it has learned. */
    static method RebuildCandidates(state: PeerState) returns (rebuilt: PeerState)
      ensures rebuilt == LearntPeer(state, state.learned)
    {
      AddrPortOrder();
      var learned := SortSet(state.learned.Keys, AddrPortLe);
      rebuilt := state.(candidates := state.config.endpoints + learned);
    }

    method PruneLearned(node: NodeKey, now: Time) returns (changed: bool)
      requires node in peers && PeerOk(node, peers[node])
      modifies this`peers, this`byAddr
      ensures Contents() == Prune(old(Contents()), node, now)
      ensures changed <==> Expired(old(peers[node]), now) != {}
    {
      hide PeerOk, CandidateList, SortedSet;
      var state := peers[node];
      PrunedOk(node, state, now);
      ghost var expired := Expired(state, now);
      changed := false;
      var learned, todo := state.learned, state.learned.Keys;
      assert state.learned - (expired - todo) == state.learned;
      while todo != {}
        invariant todo <= state.learned.Keys && peers == old(peers)
        invariant learned == state.learned - (expired - todo)
        invariant byAddr == WithoutExpired(old(byAddr), node, state.direct, expired - todo)
        invariant changed <==> expired - todo != {}
      {
        var endpoint :| endpoint in todo;
        todo := todo - {endpoint};
        if now - learned[endpoint] <= CANDIDATE_LIFETIME {
          continue;
        }
        learned := learned - {endpoint};
        if endpoint in byAddr && byAddr[endpoint] == node && state.direct != endpoint {
          byAddr := byAddr - {endpoint};
        }
        changed := true;
      }
      assert expired - todo == expired;
      if changed {
        state := RebuildCandidates(state.(learned := learned));
      }
      peers := peers[node := state];
    }

    /** Learns each usable address not configured already, while there is room. */
    method AddEach(endpoints: seq<AddrPort>, node: NodeKey, raws: seq<AddrPort>, now: Time, before: map<AddrPort, Time>)
      returns (learned: map<AddrPort, Time>, added: bool)
      modifies this`byAddr
      ensures (learned, byAddr) == LearnAll(endpoints, node, now, raws, |raws|, before, old(byAddr))
      ensures before.Keys <= learned.Keys && (added <==> learned.Keys != before.Keys)
    {
      learned, added := before, false;
      for i := 0 to |raws|
        invariant (learned, byAddr) == LearnAll(endpoints, node, now, raws, i, before, old(byAddr))
        invariant before.Keys <= learned.Keys && (added <==> learned.Keys != before.Keys)
      {
        var endpoint := raws[i].Unmap();
        if !endpoint.IsValid() || endpoint in endpoints {
          continue;
        }
        if endpoint in learned {
          assert learned[endpoint := now].Keys == learned.Keys;
          learned := learned[endpoint := now];
          byAddr := byAddr[endpoint := node];
          continue;
        }
        if |learned| >= MAX_LEARNED {
          continue;
        }
        learned := learned[endpoint := now];
        byAddr := byAddr[endpoint := node];
        added := true;
      }
    }

    method AddLearned(node: NodeKey, raws: seq<AddrPort>, now: Time) returns (changed: bool)
      requires Valid()
      modifies this`peers, this`byAddr
      ensures Valid() && Contents() == Learn(old(Contents()), node, raws, now)
      ensures changed <==>
        node in old(peers) &&
        (Expired(old(peers[node]), now) != {} || peers[node].learned.Keys != old(peers[node]).learned.Keys)
    {
      hide Inv, PeerOk, PrunedAddr, CandidateList, LearnedOk, LearnAll, Expired, WithoutExpired;
      LearnKeeps(Contents(), node, raws, now);
      if node !in peers {
        return false;
      }
      PeersOk(Contents(), node);
      PrunedOk(node, peers[node], now);
      ghost var before := peers[node];
      changed := PruneLearned(node, now);
      var state := peers[node];
      var learned, added := AddEach(state.config.endpoints, node, raws, now, state.learned);
      changed := changed || added;
      if changed {
        state := RebuildCandidates(state.(learned := learned));
      } else {
        SameCandidates(node, state, learned);
        state := state.(learned := learned);
      }
      assert peers[node := state] == old(peers)[node := state];
      peers := peers[node := state];
    }

    /** Whom a packet from `source` is attributed to: a current peer that has this address. */
    method Attribute(source: AddrPort) returns (node: Option<NodeKey>)
      requires Valid()
      ensures node.Some? ==> node.value in peers && Owns(peers[node.value], source.Unmap())
      ensures node.Some? <==> source.Unmap() in byAddr
    {
      hide Owns;
      var addr := source.Unmap();
      node := if addr in byAddr then Some(byAddr[addr]) else None;
    }

    /** The peer a message opened with the key `sender` is from; a relay must vouch for the same node. */
    method Identify(sender: DiscoKey, origin: Origin) returns (node: Option<NodeKey>)
      requires Valid()
      ensures node.Some? <==> sender in byDisco && (origin.Relayed? ==> origin.node == byDisco[sender])
      ensures node.Some? ==> node.value in peers && peers[node.value].config.discoKey == sender != 0
      ensures node.Some? ==> node.value == byDisco[sender]
    {
      hide PeerOk, AddrSound;
      node := None;
      if sender in byDisco && byDisco[sender] in peers && !(origin.Relayed? && origin.node != byDisco[sender]) {
        node := Some(byDisco[sender]);
      }
    }

    /** A pong uses up its ping, and counts only if the ping was sent to the same node. */
    method TakePing(tx: nat, node: NodeKey) returns (answered: bool)
      modifies this`pending
      ensures pending == old(pending) - {tx}
      ensures answered <==> tx in old(pending) && old(pending)[tx] == node
    {
      answered := tx in pending && pending[tx] == node;
      pending := pending - {tx};
    }

    /**
     * Acts on an opened message. The sections under the lock are `Identify`, `TakePing`,
     * `SetDirectPath` and `AddLearned`; this is what they do with nobody in between.
     */
    method HandleMessage(sender: DiscoKey, origin: Origin, m: Message, now: Time)
      requires Valid()
      modifies this
      ensures Valid()
      ensures sender !in old(byDisco) || (origin.Relayed? && origin.node != old(byDisco)[sender]) ==>
                Contents() == old(Contents()) && pending == old(pending)
      ensures sender in old(byDisco) && (origin.Relayed? ==> origin.node == old(byDisco)[sender]) ==>
                && Contents() == Heard(old(Contents()), old(pending), old(byDisco)[sender], origin, m, now)
                && pending == (if m.Pong? && origin.Direct? && origin.source.IsValid() then old(pending) - {m.tx}
                               else old(pending))
      ensures sender in old(byDisco) && (origin.Relayed? ==> origin.node == old(byDisco)[sender]) ==>
                var node := old(byDisco)[sender];
                && node in old(peers) && node in peers
                && PeerAfter(old(peers)[node], old(pending), node, origin, m, now, peers[node], byAddr)
    {
      hide Inv, SetDirect, Learn, Kept, PeerAfter;
      var found := Identify(sender, origin);
      if found.None? {
        return;
      }
      HeardMeaning(Contents(), pending, byDisco[sender], origin, m, now);
      var node := byDisco[sender];
      match m
      case Ping(claimed) =>
        if origin.Relayed? || !origin.source.IsValid() {
          NoDirect(Contents(), node, origin);
          return;
        }
        if claimed.Some? && claimed.value != node {
          return;
        }
        SetDirectPath(node, origin.source);
      case Pong(tx) =>
        if origin.Relayed? || !origin.source.IsValid() {
          NoDirect(Contents(), node, origin);
          return;
        }
        var answered := TakePing(tx, node);
        if answered {
          SetDirectPath(node, origin.source);
        }
      case CallMeMaybe(addrs) =>
        if origin.Direct? {
          return;
        }
        var kept := KeepLearnable(addrs);
        if kept != [] {
          var _ := AddLearned(node, kept, now);
        }
    }

    /** What `Open` does to the tables; pings of the former socket are forgotten. */
    method Reset(now: Time)
      requires Valid()
      modifies this
      ensures Valid() && Reopened(old(Contents()), Contents(), now) && pending == map[]
    {
      hide Inv, PartlyReopened, PeerOk, ReopenedPeer, PrunedAddr, IndexAll, CandidateList;
      pending, byAddr := map[], map[];
      var todo := peers.Keys;
      NoneReopened(peers, now);
      while todo != {}
        invariant todo <= old(peers).Keys && byDisco == old(byDisco) && pending == map[]
        invariant PartlyReopened(old(peers), old(peers).Keys - todo, peers, byAddr, now)
      {
        var key := Sets.Pick(todo);
        ghost var done, before := old(peers).Keys - todo, peers;
        PeersOk(old(Contents()), key);
        ReopenOne(old(peers), done, key, peers, byAddr, now);
        var _ := PruneLearned(key, now);
        peers := peers[key := peers[key].(direct := NO_ADDR)];
        assert peers == before[key := ReopenedPeer(old(peers)[key], now)];
        IndexAddresses(peers[key].candidates, key);
        todo := todo - {key};
        assert old(peers).Keys - todo == done + {key};
      }
      assert old(peers).Keys - todo == old(peers).Keys;
      AllReopened(old(Contents()), Contents(), now);
      ReopenKeeps(old(Contents()), Contents(), now);
    }
  }

  /** The tables part of the way through `Reset`: the peers in `done` are reset and indexed. */
  ghost predicate PartlyReopened(before: map<NodeKey, PeerState>, done: set<NodeKey>, peers: map<NodeKey, PeerState>,
                                 byAddr: AddrIndex, now: Time)
  {
    && done <= before.Keys && peers.Keys == before.Keys
    && (forall k :: k in before ==> peers[k] == if k in done then ReopenedPeer(before[k], now) else before[k])
    && (forall a :: a in byAddr ==> byAddr[a] in done && a in peers[byAddr[a]].candidates)
    && (forall k, a :: k in done && a in peers[k].candidates ==> a in byAddr)
  }

  lemma NoneReopened(before: map<NodeKey, PeerState>, now: Time)
    ensures PartlyReopened(before, before.Keys - before.Keys, before, map[], now)
  {
  }

  lemma ReopenOne(before: map<NodeKey, PeerState>, done: set<NodeKey>, key: NodeKey, peers: map<NodeKey, PeerState>,
                  byAddr: AddrIndex, now: Time)
    requires PartlyReopened(before, done, peers, byAddr, now) && key in before && key !in done
    ensures key in peers && peers[key] == before[key]
    ensures PrunedAddr(byAddr, key, before[key], now) == byAddr
    ensures ReopenedPeer(before[key], now) == PrunedPeer(before[key], now).(direct := NO_ADDR)
    ensures PartlyReopened(before, done + {key}, peers[key := ReopenedPeer(before[key], now)],
                           IndexAll(byAddr, PrunedPeer(before[key], now).candidates, key), now)
  {
    hide CandidateList;
  }

  lemma AllReopened(t: Tables, t': Tables, now: Time)
    requires PartlyReopened(t.peers, t.peers.Keys, t'.peers, t'.byAddr, now) && t'.byDisco == t.byDisco
    ensures Reopened(t, t', now)
  {
    hide ReopenedPeer;
  }

  lemma SameCandidates(k: NodeKey, p: PeerState, learned: map<AddrPort, Time>)
    requires PeerOk(k, p) && learned.Keys == p.learned.Keys
    ensures p.(learned := learned) == LearntPeer(p, learned)
  {
  }

  lemma NoDirect(t: Tables, node: NodeKey, origin: Origin)
    ensures origin.Direct? && !origin.source.IsValid() ==> SetDirect(t, node, origin.source) == t
  {
  }

  lemma PeersOk(t: Tables, k: NodeKey)
    requires Inv(t) && k in t.peers
    ensures PeerOk(k, t.peers[k])
  {
  }

  lemma RemoveNothing(byAddr: AddrIndex, k: NodeKey)
    ensures RemoveOwned(byAddr, [], k) == byAddr
  {
  }

  lemma IndexNothing(byAddr: AddrIndex, k: NodeKey)
    ensures IndexAll(byAddr, [], k) == byAddr
  {
  }
}
