/** Nodes as the control service describes them, and the partial changes it sends for them. */
module Nodes {
  import opened Addresses
  import opened Options
  import opened PeerIndex

  /** `details` stands for the fields that nothing here depends on. */
  datatype Node = Node(
    id: int, stableId: string, name: string, key: NodeKey, discoKey: DiscoKey,
    addresses: seq<Prefix>, allowedIPs: seq<Prefix>, endpoints: seq<AddrPort>,
    homeDERP: int, legacyDERP: int, wireGuardOnly: bool, peerAPIOnly: bool, expired: bool,
    keyExpiry: Option<Time>, online: Option<bool>, lastSeen: Option<Time>, details: nat)
  {
    /** `markNodeExpired`. */
    function Expire(now: Time): Node {
      if !expired && keyExpiry.Some? && keyExpiry.value <= now then this.(expired := true) else this
    }

    /** `homeDERP`. */
    function Home(): int {
      if homeDERP != 0 then homeDERP else legacyDERP
    }
  }

  /** Missing values leave the field of the node as it is. */
  datatype Patch = Patch(
    id: int, homeDERP: int, details: Option<nat>, endpoints: Option<seq<AddrPort>>, key: Option<NodeKey>,
    discoKey: Option<DiscoKey>, online: Option<bool>, lastSeen: Option<Time>, keyExpiry: Option<Option<Time>>)
  {
    /** `applyPeerPatchLocked`, on the node with this id. */
    function Apply(n: Node): Node {
      n.(homeDERP := if homeDERP != 0 then homeDERP else n.homeDERP,
         details := if details.Some? then details.value else n.details,
         endpoints := if endpoints.Some? then endpoints.value else n.endpoints,
         key := if key.Some? then key.value else n.key,
         discoKey := if discoKey.Some? then discoKey.value else n.discoKey,
         online := if online.Some? then online else n.online,
         lastSeen := if lastSeen.Some? then lastSeen else n.lastSeen,
         keyExpiry := if keyExpiry.Some? then keyExpiry.value else n.keyExpiry)
    }
  }

  /** A patch gives the node the fields it carries, and leaves those it does not carry and all others. */
  lemma PatchMeaning(p: Patch, n: Node)
    ensures var n' := p.Apply(n);
            && (if p.key.Some? then n'.key == p.key.value else n'.key == n.key)
            && (if p.discoKey.Some? then n'.discoKey == p.discoKey.value else n'.discoKey == n.discoKey)
            && (if p.endpoints.Some? then n'.endpoints == p.endpoints.value else n'.endpoints == n.endpoints)
            && (if p.homeDERP != 0 then n'.homeDERP == p.homeDERP else n'.homeDERP == n.homeDERP)
            && (if p.online.Some? then n'.online == p.online else n'.online == n.online)
            && (if p.lastSeen.Some? then n'.lastSeen == p.lastSeen else n'.lastSeen == n.lastSeen)
            && (if p.keyExpiry.Some? then n'.keyExpiry == p.keyExpiry.value else n'.keyExpiry == n.keyExpiry)
            && n' == Node(n.id, n.stableId, n.name, n'.key, n'.discoKey, n.addresses, n.allowedIPs, n'.endpoints,
                          n'.homeDERP, n.legacyDERP, n.wireGuardOnly, n.peerAPIOnly, n.expired, n'.keyExpiry,
                          n'.online, n'.lastSeen, n'.details)
  {
  }

  /** A node expires when its key expiry has come, and never recovers by waiting. */
  lemma ExpireMeaning(n: Node, now: Time)
    ensures n.Expire(now).expired <==> n.expired || (n.keyExpiry.Some? && n.keyExpiry.value <= now)
    ensures n.Expire(now) == n.(expired := n.Expire(now).expired)
  {
  }
}
