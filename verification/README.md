# Verification of wgo-tailscale

A Dafny model of the decision logic of wgo-tailscale, a Tailscale-style controller that publishes
peers on a shared WireGuard device, and proofs of what that logic promises. The model starts where
strings, sockets and cryptography end: addresses are a width and a value, keys are numbers with 0
for the zero key, and clocks, random choices, API failures and the order in which Go walks a map
are inputs or left open. `dafny verify dfyconfig.toml` checks everything.

## What is modelled

- **ACL compiler** (`AddressRanges`, `Acl`, over `Bits`, `Addresses`). An address range becomes
  CIDR prefixes by the source's greedy byte-level loop. The result is exact, canonical, shortest
  among all prefix lists with the same union, and at most 2w-2 long, a bound that is attained.
  The compiled firewall rules admit a flow exactly when `ACLAllows` allows it, for every selector
  kind and every bit count. This holds if and only if the protocol number is in 0..255:
  `ACLAllows` itself accepts numbers no IP header can carry.
- **Peer tables of the transport** (`PeerIndex`, `Transport`). The two indexes agree with the
  peers in every state of every run. In runs whose peers share no address and no disco key, direct
  addresses and disco keys are indexed exactly. All addresses are, unless an update changes the
  disco key of a peer whose direct address is still listed, which strands that address. Each kind
  of message does to its sender's tables what it is for, and no more.
- **Peer reconciler** (`Reconciler`, `Publication`, `Protocol`, `InFlight`, `Controller`).
  Reconciling, shutdown, map updates, path updates, recovery, confirmation and edits by other
  controllers are interleaved steps of one state machine, where one read-check-write on one key is
  atomic. The three records of published peers coincide, what other controllers own is left alone,
  and recovery of stale direct paths starts and ends only as designed, and decides what is
  published. A whole pass is the product of its one-key steps, and what it leaves for every key is
  told from the nodes, the options and the paths. Every second pass has nothing to do if and only
  if no two eligible nodes with one key would publish differently.
- **Device lifecycle** (`Protocol`, `Device`). Published peers belong to the attached API, late
  watchers of earlier attachments do nothing, and the node identity never changes.
- **DERP home selection** (`DerpHome`). The choice is unique, stable and usable, whatever the map
  iteration order. The home moves exactly if the best region is enough faster, which bounds how
  often it can move.
- **Probe rounds** (`ProbeRounds`). One step for each section under the lock. Whatever the order
  of queries, replies, expiry and reopening, the signal comes at most once and only at zero,
  remaining never exceeds the open targets, and each round is published at most once with the
  minimum per region. A target is counted twice only if its query gives up after a reply took its
  transaction.
- **STUN** (`Stun`, over `Bytes`). The attribute walk on every byte string, what an address value
  says byte by byte, and address round trips.
- **Noise records** (`NoiseRecords`). Cutting, nonces and reassembly over an ideal AEAD and a
  network that may do anything.
- **MagicDNS** (`MagicDns`). Search through possibly cyclic CNAMEs, grouping and ordering, told from
  the records of the view.
- **Network map and view revisions** (`NetworkMap`, over `Nodes`, `Strings`). Map responses, named
  packet filters, and why a view's revision identifies what the view shows.

`Ordering`, `Sets` and `Options` hold sorting, set iteration and optional values.

Some promises of the design hold only under a condition. Each is stated with the exact condition
and with a concrete input or run that shows it is needed:

- `Acl.FirewallConfig` needs a protocol number in 0..255 (`Acl.ProtocolOutOfRange`).
- `PeerIndex.UpdatedOwn` needs an update that strands no address (`PeerIndex.StrandedEndpoint`).
- `PeerIndex.RemoveKeepsDiscos` needs a disco key that is nobody else's (`PeerIndex.SharedDiscoIsLost`).
- `Controller.IdempotentExactly` needs nodes with one key to publish the same (`Controller.TwinsAreUnstable`).
- `Protocol.InFlightExactly` needs the mark before the pass begins (`InFlight.MarkedTooLate`).
- `ProbeRounds.DecidedByDeletion` needs a transaction that is still pending, or was dropped, when a
  query that gives up deletes it (`ProbeRounds.AnsweredThenGivenUp`).
- `DerpHome.OrderIndependentExactly` needs region 0 not to be the best of several measured regions
  (`DerpHome.RegionZeroDependsOnOrder`). The client itself never measures region 0: client.go:862
  drops such a metric, and `DerpHome.RelayState` keeps none.

## Model

| member | source | states |
|---|---|---|
| AddressRanges.AddressRangePrefixes | acl.go:154-179 | For all addresses: the union is exactly [start, end], masked, ascending, disjoint, at most 2w-2, and no exact prefix list is shorter; empty for unordered or mixed families |
| AddressRanges.GreedyPrefixes | acl.go:160-178 | The outer loop terminates, also when the end is the maximum address, with the greedy cover |
| AddressRanges.NextPrefix | acl.go:162-176 | One turn yields the first prefix of the cover and leaves the cover of the rest |
| AddressRanges.WidestPrefixBits | acl.go:162-169 | The inner loop finds the widest aligned block inside the range |
| AddressRanges.CandidateFits | acl.go:164-167 | A candidate prefix is accepted exactly if its block is aligned at the start and ends within the range |
| AddressRanges.WidestIsMaximal | acl.go:162-169 | Every block that fits is at most as wide as the one taken |
| AddressRanges.CoverIsExact | acl.go:154-179 | The greedy cover is ascending and its blocks hold exactly the range |
| AddressRanges.CoverIsMinimal | acl.go:154-179 | Any set of aligned blocks with the same union has at least as many blocks |
| AddressRanges.CoverBound | acl.go:154-179 | At most 2w-2 blocks for every range of width w >= 2 |
| AddressRanges.BoundIsAttained | acl.go:154-179 | The range from 1 to 2^w-2 takes exactly 2w-2 blocks |
| AddressRanges.CoverPrefixesExact | acl.go:154-179 | As prefixes: exact and canonical |
| AddressRanges.CoverPrefixesMinimal | acl.go:154-179 | As prefixes: no exact list is shorter |
| AddressRanges.PrefixLastAddress | acl.go:181-192 | The address of the prefix with all host bits set |
| AddressRanges.LastIsGreatest | acl.go:181-192 | That address is in the prefix and no address of the prefix is greater |
| AddressRanges.SetHostBits | acl.go:194-198 | Setting bits byte by byte in place sets exactly the host bits of the value |
| Addresses.UnmapValid | acl.go:263-268 | Unmapping a mapped IPv4 address gives a valid IPv4 address |
| Addresses.UnmapMeaning | acl.go:263-268 | Exactly the addresses ::ffff:0:0 to ::ffff:ffff:ffff are unmapped, each to its last 32 bits |
| Addresses.MaskingKeepsMembers | acl.go:231-261 | Masking a prefix does not change which addresses it holds |
| Acl.UnmapPrefixKeeps | client.go:839-844 | The unmapped prefix holds the unmapped forms of exactly the mapped addresses the prefix holds, for mapped prefixes of 96 bits or more; `PrefixMeaning` has all prefixes |
| Acl.PrefixMeaning | acl.go:236-239 | For every prefix and plain address: a mapped prefix of 96 bits or more selects the address exactly if it holds its mapped form, any other prefix exactly if it holds the address; by division, without masks |
| Acl.SingleMeaning | acl.go:251-260 | A single address with a bit count selects exactly the prefix it stands for, with the count of a mapped address read as IPv6 from 96 on; a count that is too large selects nothing |
| Acl.MatchesIPMeaning | acl.go:231-261 | For every selector kind, bit count and address, the reading of `matchesIP` is the selection; without bits a single address selects itself |
| Acl.SourceMeaning | acl.go:200-211 | A source without a bit count of its own is read as one without bits |
| Acl.DestinationMeaning | acl.go:220-229 | A destination is met exactly if its selector selects the address and the port is from first to last |
| Acl.AllowsMeaning | acl.go:14-26 | The direct reading of a rule list is what the list permits, in terms of addresses, prefixes, ranges, ports and protocol numbers |
| Acl.SourceMatches | acl.go:200-211 | The loop finds a source selector exactly if one matches |
| Acl.ACLAllows | acl.go:14-26 | True exactly if some rule matches source, protocol and a destination with its ports, and exactly if the rules permit the flow in the terms of `AllowsMeaning` |
| Acl.SomeRuleAllows | acl.go:15-25 | The loop finds a matching rule exactly if there is one |
| Acl.FirewallHostSelectors | acl.go:84-124 | Returns the compiled hosts of one selector; by `SelectorsAgree` and `MatchesIPMeaning` they admit exactly what the selector selects |
| Acl.SelectorsAgree | acl.go:231-261 | For every selector kind and bit count, `matchesIP` is true exactly if some compiled host admits the unmapped address |
| Acl.RangesAgree | acl.go:96-110 | The same for ranges, through the exactness of the prefix cover |
| Acl.FirewallNetworks | acl.go:126-145 | Returns the deduplicated networks, which `NetworksAgree` is about |
| Acl.NetworksAgree | acl.go:126-145 | Some network stands for a protocol exactly if the rule matches it and it is in 0..255 |
| Acl.FirewallSourceHosts | acl.go:72-82 | Returns the compiled sources, which `SourcesAgree` is about |
| Acl.SourcesAgree | acl.go:72-82 | Some compiled source admits an address exactly if some source selector matches it |
| Acl.CompileDestination | acl.go:48-66 | One firewall rule for each network of a destination with hosts and an ordered port range |
| Acl.DestinationAgrees | acl.go:220-229 | Its rules admit a flow exactly if network, source and destination match |
| Acl.CompiledRuleAgrees | acl.go:42-67 | The rules of one ACL rule admit exactly what that rule allows, for protocols 0..255 |
| Acl.CompilePreservesMeaning | acl.go:39-70 | For every rule list and flow: admitted exactly if allowed and the protocol is in 0..255 |
| Acl.FirewallConfig | acl.go:39-70 | The built rules are well formed and admit a flow exactly if the rule list permits it and the protocol is in 0..255, for all flows |
| Acl.ProtocolOutOfRange | acl.go:213-218 | A filter that names protocol 256 is allowed by `ACLAllows` and admitted by no rule |
| PeerIndex.SanitizeEndpoints | internal/tailnet/bind.go:615-631 | The loop keeps the sanitized endpoints, in order |
| PeerIndex.SanitizeClean | internal/tailnet/bind.go:615-631 | Kept endpoints are usable, unmapped, distinct and at most 256; a usable one is dropped only for lack of room |
| PeerIndex.SanitizeOrder | internal/tailnet/bind.go:618-629 | More endpoints only add at the end: the kept ones stay in their order |
| PeerIndex.UsableMeaning | internal/tailnet/bind.go:619-623 | Usable is every address with a port outside 0.0.0.0, ::, 224.0.0.0/4 and ff00::/8 |
| PeerIndex.AddrPortLeMeaning | internal/tailnet/disco.go:277 | The order of candidates: IPv4 before IPv6, then by address, then by port |
| PeerIndex.IndexMeaning | internal/tailnet/bind.go:676-681 | Whoever an address is indexed to is a current peer that has it; indexed addresses are valid and unmapped |
| PeerIndex.CandidatesDistinct | internal/tailnet/disco.go:271-279 | Candidates are the endpoints followed by the sorted learned addresses, without duplicates, at most 256 of each |
| PeerIndex.UpdateKeeps | internal/tailnet/bind.go:413-458 | Updating a peer keeps the tables in agreement |
| PeerIndex.UpdateMeaning | internal/tailnet/bind.go:413-458 | A new configuration replaces the old one and forgets what was learned; a direct address survives exactly with the disco key it was found with; other peers are untouched |
| PeerIndex.RemoveKeeps | internal/tailnet/bind.go:460-482 | Removing a peer leaves no entry that names it and keeps all address entries of others |
| PeerIndex.RemoveKeepsDiscos | internal/tailnet/bind.go:462-463 | The disco entries of others survive if and only if the disco key of the removed peer is not indexed to another peer |
| PeerIndex.SharedDiscoIsLost | internal/tailnet/bind.go:462-463 | A concrete run of two peers with one disco key, where removing one takes the entry of the other |
| PeerIndex.SetDirectKeeps | internal/tailnet/disco.go:281-306 | Setting a direct address keeps the tables in agreement |
| PeerIndex.SetDirectMeaning | internal/tailnet/disco.go:281-306 | A usable address of a known peer becomes its direct address and is indexed to it; any other changes nothing |
| PeerIndex.PruneKeeps | internal/tailnet/disco.go:253-269 | Expiring learned addresses keeps the tables in agreement |
| PeerIndex.PruneMeaning | internal/tailnet/disco.go:253-269 | An address learned or refreshed at t is still a candidate at now exactly if now - t is at most 120 s |
| PeerIndex.LearnKeeps | internal/tailnet/disco.go:221-251 | Learning addresses keeps the tables in agreement and the limit of 256 |
| PeerIndex.LearnMeaning | internal/tailnet/disco.go:230-246 | Every address told that is valid and no endpoint is known as of now, if it was known or there is room for it; all others keep their time, and nothing else is learned |
| PeerIndex.LearnTableMeaning | internal/tailnet/disco.go:221-251 | After learning, a peer has its unexpired addresses and those it was told, and its candidates are its endpoints followed by all of them in order |
| PeerIndex.ReopenKeeps | internal/tailnet/bind.go:224-235 | Reopening keeps the tables in agreement, whichever peer wins a shared address |
| PeerIndex.RunsAgree | internal/tailnet/bind.go:413-482 | In every state of every run: both indexes are sound, all keys current, discos non-zero and own, candidates as built |
| PeerIndex.UpdatedOwn | internal/tailnet/bind.go:429-453 | After a changing update all addresses of the peer are indexed to it exactly if the update does not drop a direct address that is a new endpoint |
| PeerIndex.UpdateExact | internal/tailnet/bind.go:413-458 | Exact indexes stay exact for direct addresses and disco keys, and for all addresses exactly if nothing is stranded |
| PeerIndex.UnsharedRunsAreExact | internal/tailnet/bind.go:413-482 | In runs without sharing, direct addresses are indexed to their peer and byDisco is the inverse of the non-zero disco keys; without stranding updates byAddr is exact too |
| PeerIndex.StrandedEndpoint | internal/tailnet/bind.go:444-450 | A concrete run in which a listed endpoint loses its index entry |
| Transport.Bind.constructor | internal/tailnet/bind.go:133-160 | Starts with empty tables |
| Transport.Bind.UpdatePeer | internal/tailnet/bind.go:413-458 | Does to the tables exactly what the specification says, and keeps them in agreement |
| Transport.Bind.RemovePeer | internal/tailnet/bind.go:460-482 | Removes the peer, every index entry that names it, the entry of its disco key whoever that names, and its outstanding pings |
| Transport.Bind.DropPings | internal/tailnet/bind.go:476-480 | Keeps exactly the pings of other nodes |
| Transport.Bind.SetDirectPath | internal/tailnet/disco.go:281-306 | Refuses unusable addresses and unknown peers; otherwise moves the direct address and its entry |
| Transport.Bind.RebuildCandidates | internal/tailnet/disco.go:271-279 | Endpoints and then the learned addresses in order, however the map is walked |
| Transport.Bind.PruneLearned | internal/tailnet/disco.go:253-269 | Forgets exactly the addresses older than two minutes, but not the entry of the direct address; reports whether there were any |
| Transport.Bind.AddEach | internal/tailnet/disco.go:231-246 | Learns, refreshes or skips each address as the limit allows; reports whether one is new |
| Transport.Bind.AddLearned | internal/tailnet/disco.go:221-251 | Prunes, learns and rebuilds; reports a change exactly if something expired or was added |
| Transport.Bind.Attribute | internal/tailnet/bind.go:667-681 | A packet is attributed to a current peer that has its unmapped source address, or to nobody |
| Transport.Bind.Identify | internal/tailnet/disco.go:133-141 | A known sender is the current peer indexed under its disco key; a relay that vouches for another node is not believed |
| Transport.Bind.TakePing | internal/tailnet/disco.go:179-187 | A pong uses up its ping and counts only for the node the ping was sent to |
| Transport.KeepLearnable | internal/tailnet/disco.go:195-208 | The loop over the endpoints of a message keeps the specified ones |
| Transport.KeptAreLearnable | internal/tailnet/disco.go:195-208 | Kept are only unmapped, usable addresses that are neither loopback nor link-local, at most 256; one is dropped only for lack of room |
| Transport.KeptOrder | internal/tailnet/disco.go:195-208 | More addresses only add at the end |
| Transport.LearnableMeaning | internal/tailnet/disco.go:205-207 | Kept are the usable addresses outside 127.0.0.0/8, ::1, 169.254.0.0/16 and fe80::/10 |
| Transport.Bind.HandleMessage | internal/tailnet/disco.go:126-219 | Ignores messages without a known sender. A ping with the right claim or none, and a pong whose ping went to its sender, from a usable address make that address the direct one and index it; a relayed call-me-maybe teaches every kept address that is no endpoint as of now, if it was known or there is room; nothing else changes the sender |
| Transport.HeardIsLocal | internal/tailnet/disco.go:149-218 | What a message may not do: change another peer, set a direct address other than its source, or teach candidates without a relay |
| Transport.HeardMeaning | internal/tailnet/disco.go:149-218 | What a message does to its sender, for every kind of message, claim, ping and origin, as told for `HandleMessage` |
| Transport.Bind.Reset | internal/tailnet/bind.go:223-235 | Prunes every peer, forgets direct addresses and pings, and indexes exactly the remaining candidates |
| Reconciler.DroppedKeeps | map.go:587-607 | Withdrawing one key keeps the three records in agreement and touches nothing else, also when the delete fails |
| Reconciler.PublishedKeeps | map.go:609-676 | Publishing one key does so too, on conflict, failure and success |
| Reconciler.DroppedLeavesForeign | map.go:591-598 | It leaves entries with neither the recorded endpoint nor our transport |
| Reconciler.PublishedLeavesForeign | map.go:609-660 | So does publishing |
| Reconciler.MovedRecovery | client.go:725-747 | A path update ends recovery exactly if it is for another kind of path or another address |
| Reconciler.OnPathMeaning | client.go:702-755 | News of a known peer sets its path, unmapped address and latency, starts its time exactly if path or address is another, and takes a revision exactly if something changed |
| Reconciler.RecoveredMeaning | client.go:798-830 | A peer is marked exactly if it is applied on the default transport at its direct address, on that path for 120 s and not connected; nothing else changes |
| Reconciler.RecoveringIsNamed | map.go:712-716 | A recovering peer is wanted on the named transport with its key as address |
| Publication.EligibleMeaning | map.go:562-564 | Wanted is a node with a key, neither expired nor peer-API-only, and confirmed under its stable id or else its key if that is required |
| Publication.FirstUsableMeaning | map.go:729-738 | The result is the unmapped first usable endpoint, and invalid exactly if there is none |
| Publication.EndpointMeaning | map.go:712-727 | The default transport at the unmapped direct address exactly on a valid direct path that is not recovering; at the first usable endpoint for a node without relay; else the named transport with the key |
| Publication.SpecMeaning | map.go:630-651 | Any spec equal to the wanted one has the allowed prefixes of the node, or its addresses if it has none, the profile and that endpoint |
| Publication.ConfigMeaning | map.go:634-640 | The transport gets the disco key and endpoints of the node, and its home, else its legacy home, else the preferred region |
| Protocol.NextKeeps | map.go:550-696 | Every step of the state machine keeps the invariant |
| Protocol.RunsKeep | map.go:550-696 | The invariant holds in every state of every run |
| Protocol.RecordsCoincide | map.go:550-696 | Whenever the reconcile lock is free: keys of applied, peers marked applied locally and the transport's peers are one set |
| Protocol.ForeignPeersSurvive | map.go:587-660 | Whatever was edited before, the client's own steps leave device entries that are neither as recorded nor on its transport |
| Protocol.SameDevice | client.go:935-951 | Outside reconciling only shutdown deletes from the device, and only what is as published |
| Protocol.RecoveryStarts | client.go:798-830 | Recovery starts only for an applied default-transport endpoint equal to the direct address, unconnected, two minutes or more after the path began |
| Protocol.RecoveryEnds | client.go:725-747 | It ends exactly with an update for another kind or address, or with the peer's local state |
| Protocol.RecoveryLasts | client.go:736-747 | Over any stretch of a run without either it lasts, and every pass that begins wants the named transport |
| Protocol.RecordsWanted | map.go:609-676 | Whatever comes in between, a key recorded by a pass has, on record and on the device, the endpoint wanted when the pass began |
| Protocol.RecoveryPublishes | map.go:712-716 | A peer that recovers when a pass begins is put on the named transport by it, on record and on the device |
| Protocol.InFlightExactly | map.go:572-580 | For a peer on a direct path a pass records the named transport if and only if the peer was recovering when the pass began |
| InFlight.MarkedTooLate | client.go:825-827 | A concrete run from the start: a peer marked while a pass is under way is still recorded at its direct address by that pass |
| Protocol.OnlyEligibleApplied | map.go:562-607 | Under all interleavings, a pass in which no delete fails ends with only keys applied that belong to nodes eligible when it began |
| Protocol.AppliedThroughAttached | device.go:29-93 | Every applied entry was written through the attached API, whose identity is the runtime's |
| Protocol.OneIdentity | device.go:97-106 | Once started, the runtime keeps its identity, every accepted API has it, and an accepted API starts with nothing applied |
| Protocol.StaleWatcher | device.go:111-130 | A watcher of an earlier generation or another API changes nothing |
| Protocol.AttachKeeps | device.go:29-93 | Attaching keeps the invariant in all three phases of the client |
| Controller.Client.constructor | client.go:128-160 | Starts with nothing published |
| Controller.Client.SetPeerError | map.go:757-770 | Notes an error for the peer and takes a revision |
| Controller.Client.WantedPeers | map.go:560-584 | One wanted peer for exactly the keys of eligible nodes, from some eligible node with that key |
| Controller.Client.Want | map.go:563-580 | The home falls back to the preferred region; path and recovery come from the local state |
| Controller.Client.DropPeer | map.go:587-607 | Does what the one-key specification says; a change is reported or an error noted |
| Controller.Client.PublishPeer | map.go:609-676 | Does what the one-key specification says, and reports a change exactly when it does; `DoneMeaning`, `HeldMeaning` and `RefusedMeaning` tell what that is |
| Controller.Client.DropUnwanted | map.go:586-607 | Each unwanted key ends as if it alone had been withdrawn |
| Controller.Client.PublishWanted | map.go:609-676 | Each wanted key ends as if it alone had been published; silent exactly if all were calm |
| Controller.Client.TidyLocal | map.go:677-685 | Local state is kept exactly for wanted or applied peers |
| Controller.Client.ReconcilePeers | map.go:550-696 | For every pattern of failures each key ends as its own step makes it from the starting state. Told from nodes, options and paths: a key that no eligible node has is withdrawn, one that another controller holds is left alone with an error, any other stands for an eligible node in all four records; a refused key may stay as it was, with an error. No revision is taken exactly if the pass is quiet |
| Controller.Client.PassOver | map.go:550-696 | The whole pass as the product of its one-key steps, with the records in agreement |
| Controller.ConflictMeaning | map.go:611-629 | A key is held by another exactly if the device has it with an endpoint other than the recorded one or, without a record, not on the named transport |
| Controller.DoneMeaning | map.go:630-676 | A key that nobody else holds then stands for the node on the device, on record, in the local state and in the transport |
| Controller.HeldMeaning | map.go:613-629 | A held key keeps its entry on the device and loses record and transport peer, with an error |
| Controller.DroppedMeaning | map.go:587-607 | A withdrawn key is gone from all records, and from the device exactly if it was as published |
| Controller.RefusedMeaning | map.go:594-659 | A refused call leaves device and record as they were, with an error |
| Controller.PassMeaning | map.go:550-696 | Every pass does this for every key the device does not refuse |
| Controller.PassMeaningRefused | map.go:550-696 | And for a refused key this, or nothing with an error |
| Controller.OnlyWantedStay | map.go:587-607 | Without failures only wanted keys stay applied |
| Controller.PublishedAreEligible | map.go:562-564 | Each belongs to a node that is non-zero-keyed, not expired, not peer-API-only and confirmed if required |
| Controller.WantedArePublished | map.go:609-676 | A wanted key that nobody else holds has its wanted spec, up to the order of allowed prefixes, and record; one that is held is left as it is, with an error; `PassMeaning` tells the spec from the node |
| Controller.SecondPass | map.go:550-696 | After a clean pass, a second one is quiet exactly if each key is chosen with the same id and spec |
| Controller.IdempotentExactly | map.go:550-696 | After a clean pass every possible second pass is quiet if and only if, before it, no two eligible nodes with one key would publish differently |
| Controller.ReconcileIsIdempotent | map.go:550-696 | Without such nodes a second pass is quiet whatever the two passes choose |
| Controller.AmbiguityIsUnstable | map.go:560-584 | With such nodes some second pass is not quiet, whatever the first one chose |
| Controller.TwinsAreUnstable | map.go:560-584 | A concrete pair of nodes with one key for which this happens |
| Controller.QuietPassChangesNothing | map.go:651-675 | A quiet pass changes neither the device nor the record |
| Controller.CalmIff | map.go:651-675 | Publishing one key is silent exactly if its spec, record and local state are already right |
| Controller.Client.WithdrawAll | client.go:935-951 | Deletes from the device exactly the entries still as published for which the call succeeds |
| Controller.Client.RemoveOwnedPeers | client.go:921-959 | Leaves nothing applied or in the transport; the device loses exactly the keys of an attached device whose entry is as published and whose delete succeeds |
| Controller.WithdrawMeaning | client.go:935-951 | Those keys go, all other entries stay as they are, whatever the order |
| Controller.Client.HandlePath | client.go:702-755 | Ignores updates while stopping, for unknown peers and without news; otherwise moves the path |
| Controller.Client.RecoverStalePaths | client.go:798-830 | Marks exactly the overdue unconnected peers; reports whether any was marked |
| Controller.Client.ClearLocals | device.go:140-151 | Resets every local state and drops its peer from the transport |
| Controller.Client.ClearAppliedDevice | device.go:135-165 | Forgets all applied peers, and takes a revision if there were any |
| Device.Session.constructor | client.go:128-160 | Starts with the given open API or detached, and satisfies the invariant |
| Device.Session.Examine | device.go:29-70 | Accepts an API exactly if it and the client are open, the place is free and, once started, it has the right identity and takes the transport |
| Device.Session.Finish | client.go:320-331 | Closing the client changes nothing else, and no API is accepted afterwards |
| Device.Session.AttachDevice | device.go:29-93 | An accepted API starts a new generation with nothing applied; a rejected one changes nothing |
| Device.Session.Take | device.go:47-79 | Initialises or clears as the phase of the client calls for, and watches |
| Device.Session.StartClient | client.go:166-230 | Succeeds exactly once, not after closing, and with a usable API starts the runtime with its identity |
| Device.Session.ApiCloses | device.go:111-130 | Closing changes nothing until a watcher wakes |
| Device.Session.WatcherWakes | device.go:111-130 | Clears exactly if its generation is current |
| DerpHome.ChoosePreferredDERP | map.go:357-375 | The fallback: the current region if usable, else the first usable one in order, else 0 |
| DerpHome.UsableIds | map.go:364-370 | Collects exactly the usable regions |
| DerpHome.ChoosePreferredDERPMeasured | map.go:390-421 | Unless region 0 is the best of several measured ones, a measured home c moves to the fastest region b exactly if it is 10 ms slower and b takes at most c / 3 * 2, and stays otherwise; an unmeasured home is left for b; without measurements a usable home stays, and an unusable one gives way to the first usable region or 0 |
| DerpHome.Choose | map.go:390-421 | The body of the choice meets the choice relation |
| DerpHome.ChoiceDecides | map.go:405-420 | Every choice is decided by these numbers, for every map, home and measurements |
| DerpHome.ServesIffUsable | map.go:377-384 | Usable is a region that is in the map, not ruled out as a home, and has a node that does more than STUN |
| DerpHome.Search | map.go:395-404 | The loop over the measurements finds the best region in whatever order it walks them |
| DerpHome.ScanFindsBest | map.go:397-404 | A best region other than 0, by latency and then id, is found in every order, region 0 measured or not |
| DerpHome.OrderIndependentExactly | map.go:395-404 | The search ends the same for every order of the walk if and only if region 0 is not the best of several candidates |
| DerpHome.ChoiceIsUnique | map.go:390-421 | The choice depends on nothing but its inputs |
| DerpHome.ChoiceIsStable | map.go:390-421 | Choosing again from the chosen home changes nothing |
| DerpHome.ChoiceIsUsable | map.go:390-421 | The choice is 0 or usable |
| DerpHome.RegionZeroDependsOnOrder | map.go:395-404 | A concrete map and measurements for which two orders give different results |
| DerpHome.LeavingHome | map.go:412-419 | Leaving a usable measured home for b needs 10 ms and 3 L_b <= 2 L_c; `ChoiceDecides` has both directions |
| DerpHome.MovingBack | map.go:412-419 | Going back needs the two latencies to have moved by 20 ms in total |
| DerpHome.MovesCost | map.go:412-419 | In any run, moves before the latest have been paid for by latency movement |
| DerpHome.FlapBound | map.go:412-419 | Over any run, each move after the first costs 10 ms of total movement |
| DerpHome.RelayState.constructor | client.go:128-160 | Starts without map, measurements and home |
| DerpHome.RelayState.ApplyDerpMap | map.go:173-197 | Forgets exactly the unusable measurements and decides the home anew by the numbers above; home 0 or usable |
| DerpHome.RelayState.DropUnusable | map.go:177-181 | The loop keeps exactly the measurements of usable regions |
| DerpHome.MergeMeaning | map.go:173-176 | A map without regions keeps the regions known so far; a map with regions replaces them |
| DerpHome.RelayState.Rechoose | map.go:182-185 | 0 when DERP is disabled, else decided by the numbers above |
| DerpHome.RelayState.OnDERPLatency | client.go:846-882 | Records usable metrics and decides the home anew; ignored while stopping; keeps home and measurements usable |
| DerpHome.RecordMeaning | client.go:857-869 | Of a region the last metric that counts is kept, and without one what was known before |
| ProbeRounds.StaleChangesNothing | internal/tailnet/netcheck.go:221-256 | Replies for another round change nothing in the current one |
| ProbeRounds.CountOnce | internal/tailnet/netcheck.go:221-237 | A query that counts once more keeps the balance: remaining is the open targets less one for each counted twice, down to 0; the signal comes once, at zero |
| ProbeRounds.BooksAreRight | internal/tailnet/netcheck.go:221-237 | In every state remaining is at most the number of open targets, and equal to it exactly if no target was counted twice or none is open |
| ProbeRounds.DecidedByDeletion | internal/tailnet/stun.go:84-93 | Whatever sections come later, a query that gives up is counted twice exactly if, when it deleted its transaction, that was neither pending for it nor dropped |
| ProbeRounds.CountedTwice | internal/tailnet/stun.go:34-94 | A query that quit has counted, and has counted twice exactly if a reply had taken its transaction |
| ProbeRounds.AnsweredThenGivenUp | internal/tailnet/stun.go:84-145 | A concrete run: one target is counted by its reply and by its query, and the round is signalled as done with the other target open |
| ProbeRounds.RecordKeepsMinimal | internal/tailnet/netcheck.go:239-256 | The kept latency is the least recorded one for the region |
| ProbeRounds.StartQueries | internal/tailnet/netcheck.go:91-119 | The open targets of a new round are exactly its STUN targets |
| ProbeRounds.Prober.constructor | internal/tailnet/bind.go:133-160 | Starts without a round |
| ProbeRounds.Prober.StartRound | internal/tailnet/netcheck.go:91-119 | A new id, remaining equal to the number of STUN targets, and right books |
| ProbeRounds.Prober.CountStun | internal/tailnet/netcheck.go:97-104 | The loop counts exactly those |
| ProbeRounds.Prober.RegisterQuery | internal/tailnet/stun.go:68-83 | Makes the transaction pending for its query, dropping what another query had under the same id |
| ProbeRounds.Prober.QuerySent | internal/tailnet/stun.go:84-89 | After a successful write the target is left to the reply |
| ProbeRounds.Prober.Forget | internal/tailnet/stun.go:90-92 | Deletes the transaction of a query whose writes failed, answered or not, and keeps all books |
| ProbeRounds.ForgetKeeps | internal/tailnet/stun.go:90-92 | The deletion counts nothing and leaves every pending transaction with its waiting query |
| ProbeRounds.Prober.CountQuit | internal/tailnet/stun.go:36-40 | The deferred end of a query without a successful write counts its target, whether a reply has counted it or not |
| ProbeRounds.Prober.TakeReply | internal/tailnet/stun.go:107-117 | Takes exactly an expected transaction, of a query that was waiting for it |
| ProbeRounds.Prober.CountReply | internal/tailnet/stun.go:140-145 | Counts the target of a reply that was taken, once for each reply |
| ProbeRounds.Prober.RecordLatency | internal/tailnet/netcheck.go:239-256 | Keeps the minimum, for the current round only |
| ProbeRounds.Prober.Expire | internal/tailnet/netcheck.go:67-71 | Drops exactly the expired transactions; nothing is counted |
| ProbeRounds.Prober.Reopen | internal/tailnet/bind.go:216-223 | No transaction and no round survives |
| ProbeRounds.Prober.Finish | internal/tailnet/netcheck.go:299-329 | Publishes a round at most once, only while current, with the minimum per region and sorted regions |
| MagicDns.ResolveName | dns.go:92-115 | Terminates on every record map; adds only reachable names, none half explored, and returns exactly their addresses |
| MagicDns.ResolvedFromScratch | dns.go:92-115 | From an empty set: exactly the addresses of the family at names reachable by CNAME |
| MagicDns.ContributionMeaning | dns.go:99-110 | An A or AAAA record gives the unmapped address of its value, 32 bits wide for ip4 and 128 for ip6 |
| MagicDns.ChainMeaning | dns.go:110-112 | The chains followed are those of CNAME records from name to normalised value |
| MagicDns.AnswersMeaning | dns.go:92-115 | The answers are what the records of the view resolve the name to, over alias chains of any length |
| MagicDns.ClosedHoldsReachable | dns.go:92-115 | A set closed under aliases holds everything reachable from it |
| MagicDns.Candidates | dns.go:29-35 | The host itself first; then, only for a host without a dot, the host in each search domain, in order |
| MagicDns.CandidatesMeaning | dns.go:29-35 | How many names are tried and what each is, from host and search domains |
| MagicDns.GroupRecords | dns.go:36-40 | Groups the records by normalised name |
| MagicDns.GroupHolds | dns.go:36-40 | A record is in a group exactly if its normalised name is the group's |
| MagicDns.ResolveAll | dns.go:42-47 | Exactly the answers of the name |
| MagicDns.SortAddresses | dns.go:48-49 | Ascending, without repetition, the same addresses |
| MagicDns.LookupNetIP | dns.go:19-54 | Told from the records of the view: the addresses of the first name to try with any, all of the family asked for, ascending and distinct; not found exactly if no name has any; unsupported exactly for networks other than "", ip, ip4 and ip6 |
| MagicDns.LookUp | dns.go:19-54 | The body of the lookup meets the specification by zone and candidates |
| MagicDns.LookupMeaning | dns.go:41-53 | What meets that specification is what the records call for |
| NetworkMap.FlattenFilters | map.go:772-783 | The name-sorted concatenation, however the map is walked |
| NetworkMap.FlattenMeaning | map.go:772-783 | The rules of each filter stand after those of all lesser names and before those of all greater ones |
| NetworkMap.Client.constructor | client.go:128-160 | Starts empty at revision 0 |
| NetworkMap.Client.Bump | client.go:912-915 | A new revision changes no stamp and no content |
| NetworkMap.Client.InsertNodes | map.go:96-112 | Changed nodes replace those with their ids; unchanged is reported only if nothing changed |
| NetworkMap.InsertedMeaning | map.go:97-105 | The last node listed with an id replaces that peer; peers without one stay |
| NetworkMap.Client.ReplaceNodes | map.go:82-95 | A full list replaces the peers, and a change is reported exactly |
| NetworkMap.Client.RemoveNodes | map.go:113-126 | Removes exactly the listed peers, and a change is reported exactly |
| NetworkMap.Client.PatchNodes | map.go:127-143 | Applies the patches in order to known peers |
| NetworkMap.PatchedMeaning | map.go:491-531 | Of a known peer, the last patch that carries a key, disco key or endpoints sets it; without one it stays |
| NetworkMap.Client.MarkSeen | map.go:144-159 | Sets or clears the last sighting of known peers |
| NetworkMap.Client.MarkOnline | map.go:160-169 | Sets the online flag of known peers |
| NetworkMap.Client.ExpireNodes | map.go:296-303 | Marks exactly the peers whose key has expired |
| NetworkMap.Client.EditFilters | map.go:212-238 | "*" without rules clears first; other names are set or removed, in any order |
| NetworkMap.NamedMeaning | map.go:205-238 | Which rules every name has afterwards, for every mix of plain filter, named filters and clearing |
| NetworkMap.Client.ApplyFilters | map.go:205-241 | The filters stay the flattened named filters |
| NetworkMap.Client.ApplyNodes | map.go:73-126 | Self and the listed peers; unchanged is reported only if nothing changed |
| NetworkMap.ListedMeaning | map.go:82-126 | A peer is as changed last, else as listed, else as known; a full list drops what it lacks, and removal wins |
| NetworkMap.Client.TouchNodes | map.go:127-172 | Patches, sightings, online flags and expiry in this order |
| NetworkMap.TouchedMeaning | map.go:127-172 | Sightings and flags of a response win over its patches; expired is exactly who was or whose key expiry has come; nothing else changes after the patches |
| NetworkMap.Client.Apply | map.go:21-355 | The whole new content; a node key mismatch changes nothing; every change of DNS or ACL content is stamped with a new revision |
| NetworkMap.TouchedKeepsNames | map.go:491-531 | Patches, sightings and expiry leave all names and addresses |
| NetworkMap.AclRevisionIdentifies | map.go:321-323 | In every history, equal ACL revisions mean equal named filters and rules |
| NetworkMap.DnsRevisionIdentifies | map.go:318-320 | In every history, equal DNS revisions mean equal settings and set of records |
| NetworkMap.RevisionIdentifies | map.go:309-317 | Equal revisions mean equal content |
| NetworkMap.Client.TakeDnsView | views.go:189-241 | The view shows exactly the canonical extra records and the records of self and peers with names |
| NetworkMap.ViewMeaning | views.go:189-241 | A record is shown exactly if it is a canonical extra one, or one address of the named node itself or of a named peer, as A or AAAA by its unmapped width |
| NetworkMap.Client.RecordsOfPeers | views.go:226-228 | Exactly the records of all peers, however the map is walked |
| NetworkMap.RecordsOf | views.go:212-224 | One record for each address of a named node |
| Stun.ParseSTUNAddress | internal/tailnet/stun.go:176-215 | XORs a byte array in place and returns what the value says, byte by byte as in `ParseMeaning`, on every value |
| Stun.ParseMeaning | internal/tailnet/stun.go:176-215 | On every value: nothing exactly if it is too short or of another family; else byte i of the address is the value byte, XORed with 21, 12, a4, 42 and then the transaction id, the port XORed with 2112, and a mapped address is unmapped |
| Stun.SampleAddress | internal/tailnet/stun.go:176-215 | The IPv4 sample of RFC 5769 section 2.2 gives 192.0.2.1:32853 |
| Stun.UnmapMeaning | internal/tailnet/stun.go:211 | Only the 16 bytes 0 ten times, ff, ff and four more are cut to the last four |
| Stun.XorInPlace | internal/tailnet/stun.go:189-210 | The array ends as the masked value; `MaskIsKey` has the mask byte by byte |
| Stun.MaskIsKey | internal/tailnet/stun.go:205-206 | Bytes 0 to 3 of the mask are 21, 12, a4, 42, and byte i after that is byte i - 4 of the transaction id |
| Bytes.XorMeaning | internal/tailnet/stun.go:207-209 | A bit of the result is set exactly if the two bits differ |
| Stun.ParseEncoded | internal/tailnet/stun.go:176-215 | Parsing undoes the encoding of sections 15.1 and 15.2 of RFC 5389, written out byte by byte without the masks of the parser, for both families, every port and transaction id |
| Stun.WalkAttributes | internal/tailnet/stun.go:119-139 | The loop stays within bounds, terminates and returns what the walk function says |
| Stun.WalkList | internal/tailnet/stun.go:119-139 | On every padded list it yields the first address attribute that parses |
| Stun.WalkMeaning | internal/tailnet/stun.go:119-139 | On every byte string: the first address that parses in its maximal padded list, else in an unpadded last value |
| Stun.ResponseRead | internal/tailnet/stun.go:96-139 | A whole response, with any bytes after it, gives that address |
| Stun.MappedMeaning | internal/tailnet/stun.go:19-26 | Type 0x0020 is read masked, 0x0001 plain, and no other type gives an address |
| Stun.PacketMeaning | internal/tailnet/stun.go:96-119 | Every packet of 20 bytes with cookie 2112a442 is taken as STUN, and read as a response exactly if its type is 0x0101 and its length is there; transaction id and attributes are cut out as in section 6 of RFC 5389 |
| NoiseRecords.ChunksWhole | internal/controlproto/noise.go:311-327 | Cutting loses nothing, makes no empty record and fills every record but the last |
| NoiseRecords.ParseFrame | internal/controlproto/noise.go:273-287 | A whole record consumes input; otherwise a short read, a bad type or a bad length |
| NoiseRecords.ParseMeaning | internal/controlproto/noise.go:273-287 | A record is read exactly if it is of type 4, of 16 to 4093 bytes and there in full; type and length are refused in this order |
| NoiseRecords.FrameMeaning | internal/controlproto/noise.go:316-319 | Type 4, the length in network order, the ciphertext |
| NoiseRecords.FrameArrives | internal/controlproto/noise.go:273-287 | A frame as sent is parsed back whole |
| NoiseRecords.SealAndSend | internal/controlproto/noise.go:311-328 | The nonce is the number of records sent; at the reserved nonce nothing is sent |
| NoiseRecords.Stream.constructor | internal/controlproto/noise.go:251-265 | A new connection has sent and received nothing |
| NoiseRecords.Stream.DeliveredIsPrefix | internal/controlproto/noise.go:266-330 | In every reachable state, what was read is a prefix of what was written |
| NoiseRecords.Stream.FramesAreSound | internal/controlproto/noise.go:301-330 | Every frame is at most 4096 bytes; its nonce is its index, sealed nothing else and is not 2^64-1 |
| NoiseRecords.Stream.SendRecord | internal/controlproto/noise.go:316-327 | One record is sent, or the connection fails, or the nonce is exhausted |
| NoiseRecords.Stream.SendAll | internal/controlproto/noise.go:310-329 | The records sent are a prefix of the cut input, with the count reported for each outcome |
| NoiseRecords.Stream.Write | internal/controlproto/noise.go:301-330 | Keeps the connection sound in every outcome; a complete write sends everything |
| NoiseRecords.Stream.ReceiveRecord | internal/controlproto/noise.go:272-295 | Accepts only the next record sent, and accepts it whenever it arrives; anything else closes or fails |
| NoiseRecords.Stream.Read | internal/controlproto/noise.go:266-299 | Leftover bytes first, then the next record; never more than the buffer |
| NoiseRecords.Stream.CloseSender | internal/controlproto/noise.go:332-341 | Closing on the sending side stops writes only |
| NoiseRecords.Stream.CloseReceiver | internal/controlproto/noise.go:332-341 | Closing on the receiving side stops reads only |
| NoiseRecords.ReadHonestly | internal/controlproto/noise.go:266-299 | Over an honest network every read yields a byte until all written bytes are read |

## Left out

- DerpHome.ChoosePreferredDERPMeasured: does not say which result is returned when region 0 is the best of several measured regions, where the order of the walk decides.
- Acl.FirewallConfig: is about the rules before `Optimize`, which belongs to another library, and about parsed selectors without IPv6 zones.
- Acl.ACLAllows: is the loop over the rules of a view; the client state it reads the view from is in `NetworkMap`.
- Transport.Bind.HandleMessage: starts from an opened message and runs its sections without others in between; any order of the sections is a run of `PeerIndex`. Sealing and the wire form of endpoints are not modelled.
- NetworkMap.Client.TakeDnsView: gives the records as a set; the source sorts by normalised name, which leaves the order of records that differ only in spelling open.
- NetworkMap.Client.InsertNodes: missing list entries are skipped by the source and are not part of the model's lists.
- Controller.Client.ReconcilePeers: a whole pass with nobody else at work; interleaving is in `Protocol`, at the grain of one key.
- Map responses are taken to arrive only after the runtime has started, and the device access and the bookkeeping for one key are one step of `Protocol`.
- The peer set of the transport that `Reconciler` keeps stands for the peer table of `Transport`; the two models are not joined.
- Latency, path time and probe time fields of the transport's peers, the events a change publishes, and the sending of pings: they feed no decision modelled here.
- Revisions are unbounded numbers, not 64-bit ones; keys, ids and texts are compared as values.
- The network and DERP views: their revisions do not identify content.
- The selection and limit of probe targets, HTTPS latency measurement, the control ping queue and browser interactions.
- The Noise handshake, the AEAD and NaCl boxes: the record layer uses an ideal AEAD.
- HTTP, TLS, DERP framing, the disk cache, key text forms and string parsing of addresses and names: their results are plain data.
- What happens after `Close` when a late caller still reconciles.
