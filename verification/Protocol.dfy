/**
 * The client as a state machine (`map.go`, `client.go`, `device.go`): reconciling and shutdown one
 * key at a time, between which other controllers edit the device, and path updates, map responses,
 * confirmations and recovery change the client's state; device APIs are attached, close and are watched.
 */
module Protocol {
  import opened Nodes
  import opened Options
  import opened PeerIndex
  import opened Reconciler

  type Api = nat

  /** What the holder of the reconcile lock is doing. */
  datatype Pass =
    | Idle
    | Reconciling(desired: Wants, owned: map<NodeKey, AppliedPeer>, drops: set<NodeKey>,
                  publishes: set<NodeKey>, changed: bool)
    | Removing(owned: map<NodeKey, AppliedPeer>, left: set<NodeKey>)

  /** `runtime` is the node identity the runtime was started with; `via` says which API an entry was written through. */
  datatype System = System(
    core: State, pass: Pass, started: bool, runtime: Option<NodeKey>, api: Option<Api>, generation: nat,
    watchers: set<(nat, Api)>, closed: set<Api>, via: map<NodeKey, Api>)

  /** The options, and the node key that each API holds; 0 is none. */
  datatype World = World(config: Config, identity: Api -> NodeKey)

  datatype Step =
    | MapUpdate(nodes: map<int, Node>, preferredDERP: int)
    | Confirm(id: string)
    | Revoke(id: string)
    | Path(update: PathUpdate, stopping: bool)
    | Recover(now: Time, idle: set<NodeKey>)
    | Foreign(device: map<NodeKey, Spec>)
    | Begin(desired: Wants)
    | Drop(key: NodeKey, fails: bool)
    | Publish(key: NodeKey, fails: bool)
    | Finish
    | BeginRemoval
    | RemoveKey(key: NodeKey, fails: bool)
    | FinishRemoval
    | Start
    | Attach(api: Api, device: map<NodeKey, Spec>)
    | Close(api: Api)
    | Wake(generation: nat, api: Api)

  predicate HasDevice(y: System) {
    y.api.Some? && y.api.value !in y.closed
  }

  /** Deleting a key at shutdown, which only forgets the peer of the transport for now. */
  function Withdrawn(s: State, k: NodeKey, owned: AppliedPeer, reachable: bool): State {
    var mine := k !in s.device || StillOwned(s, k, owned);
    s.(device := if reachable && mine then s.device - {k} else s.device, bound := s.bound - {k})
  }

  /** What clearing does; entries of the former API are forgotten. */
  ghost function Detached(y: System): System {
    y.(core := Cleared(y.core))
  }

  ghost predicate Begins(w: World, y: System, desired: Wants, y': System) {
    && y.pass.Idle? && HasDevice(y) && Desires(w.config, y.core, desired)
    && y' == y.(pass := Reconciling(desired, y.core.applied, y.core.applied.Keys - desired.Keys, desired.Keys, false))
  }

  ghost predicate Drops(y: System, k: NodeKey, fails: bool, y': System) {
    && y.pass.Reconciling? && k in y.pass.drops && k in y.pass.owned
    && var core := Dropped(y.core, k, y.pass.owned[k], fails);
       y' == y.(core := core,
                pass := y.pass.(drops := y.pass.drops - {k}, changed := y.pass.changed || k !in core.applied))
  }

  ghost predicate Publishes(w: World, y: System, k: NodeKey, fails: bool, y': System) {
    && y.pass.Reconciling? && y.pass.drops == {} && k in y.pass.publishes && k in y.pass.desired && y.api.Some?
    && var wanted, owned := y.pass.desired[k], Lookup(y.pass.owned, k);
       var core := Published(w.config, y.core, k, wanted, owned, fails);
       var wrote := k in core.applied && NeedsUpsert(w.config, y.core, k, wanted, owned) && !fails;
       y' == y.(core := core, via := if wrote then y.via[k := y.api.value] else y.via,
                pass := y.pass.(publishes := y.pass.publishes - {k},
                                changed := y.pass.changed || Changes(w.config, y.core, k, wanted, owned, fails)))
  }

  ghost predicate Finishes(y: System, y': System) {
    && y.pass.Reconciling? && y.pass.drops == {} && y.pass.publishes == {}
    && var core := Tidied(y.core, y.pass.desired.Keys);
       y' == y.(core := if y.pass.changed then core.(revision := core.revision + 1) else core, pass := Idle)
  }

  ghost predicate Removes(y: System, k: NodeKey, fails: bool, y': System) {
    && y.pass.Removing? && k in y.pass.left && k in y.pass.owned
    && y' == y.(core := Withdrawn(y.core, k, y.pass.owned[k], y.api.Some? && !fails),
                pass := y.pass.(left := y.pass.left - {k}))
  }

  ghost predicate EndsRemoval(y: System, y': System) {
    && y.pass.Removing? && y.pass.left == {}
    && y' == y.(core := y.core.(applied := y.core.applied - y.pass.owned.Keys,
                                local := y.core.local - y.pass.owned.Keys),
                pass := Idle)
  }

  /** Starting with a usable API starts the runtime too. */
  ghost predicate Starts(w: World, y: System, y': System) {
    && !y.started && y.pass.Idle?
    && (if HasDevice(y) then
          && w.identity(y.api.value) != 0
          && y' == y.(started := true, runtime := Some(w.identity(y.api.value)), generation := y.generation + 1,
                      watchers := y.watchers + {(y.generation + 1, y.api.value)})
        else y' == y.(started := true))
  }

  /** An API is accepted when the place is free and, once the runtime has started, its identity is the same. */
  ghost predicate Attaches(w: World, y: System, api: Api, device: map<NodeKey, Spec>, y': System) {
    && y.pass.Idle? && !HasDevice(y) && api !in y.closed
    && var next := y.(api := Some(api), generation := y.generation + 1, core := y.core.(device := device));
       var watched := next.watchers + {(next.generation, api)};
       if !y.started then y' == next
       else if y.runtime.None? then
         w.identity(api) != 0 && y' == next.(runtime := Some(w.identity(api)), watchers := watched)
       else
         w.identity(api) != 0 && w.identity(api) == y.runtime.value && y' == Detached(next.(watchers := watched))
  }

  /** A watcher acts only if its attachment is still the current one. */
  ghost predicate Wakes(y: System, generation: nat, api: Api, y': System) {
    && (generation, api) in y.watchers && api in y.closed
    && var left := y.(watchers := y.watchers - {(generation, api)});
       if generation == y.generation then y.pass.Idle? && y' == Detached(left) else y' == left
  }

  ghost predicate Next(w: World, y: System, step: Step, y': System) {
    match step
    case MapUpdate(nodes, home) => y.runtime.Some? && y' == y.(core := y.core.(nodes := nodes, preferredDERP := home))
    case Confirm(id) => y' == y.(core := y.core.(confirmed := y.core.confirmed + {id}))
    case Revoke(id) => y' == y.(core := y.core.(confirmed := y.core.confirmed - {id}))
    case Path(update, stopping) => y' == y.(core := OnPath(y.core, update, stopping))
    case Recover(now, idle) => y' == y.(core := if HasDevice(y) then Recovered(w.config, y.core, now, idle) else y.core)
    case Foreign(device) => y' == y.(core := y.core.(device := device))
    case Begin(desired) => Begins(w, y, desired, y')
    case Drop(key, fails) => Drops(y, key, fails, y')
    case Publish(key, fails) => Publishes(w, y, key, fails, y')
    case Finish => Finishes(y, y')
    case BeginRemoval => y.pass.Idle? && y' == y.(pass := Removing(y.core.applied, y.core.applied.Keys))
    case RemoveKey(key, fails) => Removes(y, key, fails, y')
    case FinishRemoval => EndsRemoval(y, y')
    case Start => Starts(w, y, y')
    case Attach(api, device) => Attaches(w, y, api, device, y')
    case Close(api) => y' == y.(closed := y.closed + {api})
    case Wake(generation, api) => Wakes(y, generation, api, y')
  }

  const NEW_STATE := State(map[], {}, 0, map[], map[], map[], map[], 0)

  /** A new client has nothing but, possibly, an API with its device. */
  ghost predicate Init(y: System) {
    y == System(NEW_STATE.(device := y.core.device), Idle, false, None, y.api, 0, {}, y.closed, map[])
  }

  ghost predicate Run(w: World, states: seq<System>, steps: seq<Step>) {
    && |states| == |steps| + 1 && Init(states[0])
    && (forall i :: 0 <= i < |steps| ==> Next(w, states[i], steps[i], states[i + 1]))
  }

  // ----- The invariant -----

  function Released(pass: Pass): set<NodeKey> {
    if pass.Removing? then pass.owned.Keys - pass.left else {}
  }

  /** What a pass remembers is still so for the keys it has yet to visit. */
  ghost predicate PassOk(applied: map<NodeKey, AppliedPeer>, pass: Pass) {
    match pass
    case Idle => true
    case Reconciling(desired, owned, drops, publishes, _) =>
      && drops <= owned.Keys && publishes <= desired.Keys && drops !! publishes
      && (forall k :: k in drops || k in publishes ==> Lookup(owned, k) == Lookup(applied, k))
    case Removing(owned, left) => owned == applied && left <= owned.Keys
  }

  /** Every applied entry was written through the attached API. */
  ghost predicate ViaOk(applied: map<NodeKey, AppliedPeer>, via: map<NodeKey, Api>, api: Option<Api>) {
    forall k :: k in applied ==> k in via && api == Some(via[k])
  }

  /** Before the runtime starts there is nothing to publish, and afterwards one identity. */
  ghost predicate RuntimeOk(w: World, y: System) {
    && (y.runtime.None? ==>
          y.core.nodes == map[] && y.core.applied == map[] && (y.pass.Reconciling? ==> y.pass.desired == map[]))
    && (y.runtime.Some? ==> y.started && y.api.Some? && w.identity(y.api.value) == y.runtime.value)
  }

  /** Only the newest watcher watches the current attachment. */
  ghost predicate WatchersOk(watchers: set<(nat, Api)>, generation: nat, api: Option<Api>) {
    forall e :: e in watchers ==> e.0 <= generation && (e.0 == generation ==> api == Some(e.1))
  }

  ghost predicate Inv(w: World, y: System) {
    && Agree(y.core, Released(y.pass)) && PassOk(y.core.applied, y.pass) && RecoverySound(y.core)
    && ViaOk(y.core.applied, y.via, y.api) && RuntimeOk(w, y) && WatchersOk(y.watchers, y.generation, y.api)
  }

  // ----- Every step keeps it -----

  lemma BeginKeeps(w: World, y: System, desired: Wants, y': System)
    requires Inv(w, y) && Begins(w, y, desired, y')
    ensures Inv(w, y')
  {
    hide Agree, RecoverySound, ViaOk, WatchersOk, Eligible;
    if y.runtime.None? {
      forall k ensures k !in desired {
      }
      assert desired == map[];
    }
  }

  lemma DroppedRecovery(s: State, k: NodeKey, owned: AppliedPeer, fails: bool)
    requires RecoverySound(s)
    ensures RecoverySound(Dropped(s, k, owned, fails))
  {
    hide StillOwned;
  }

  lemma DropKeeps(w: World, y: System, k: NodeKey, fails: bool, y': System)
    requires Inv(w, y) && Drops(y, k, fails, y')
    ensures Inv(w, y')
  {
    hide RecoverySound, Agree, WatchersOk, StillOwned;
    DroppedKeeps(y.core, k, y.pass.owned[k], fails);
    DroppedRecovery(y.core, k, y.pass.owned[k], fails);
    hide OnlyKey;
  }

  lemma PublishedRecovery(c: Config, s: State, k: NodeKey, wanted: Wanted, owned: Option<AppliedPeer>, fails: bool)
    requires RecoverySound(s)
    ensures RecoverySound(Published(c, s, k, wanted, owned, fails))
  {
    hide Conflict, NeedsUpsert, SpecFor, ConfigFor, Record;
  }

  /** What publishing does to the record of applied peers. */
  lemma PublishedApplied(c: Config, s: State, k: NodeKey, wanted: Wanted, owned: Option<AppliedPeer>, fails: bool)
    requires OwnedIs(s, k, owned)
    ensures var s' := Published(c, s, k, wanted, owned, fails);
            && s'.nodes == s.nodes
            && (forall j :: j != k ==> Lookup(s'.applied, j) == Lookup(s.applied, j))
            && (k in s'.applied && k !in s.applied ==> NeedsUpsert(c, s, k, wanted, owned) && !fails)
  {
    hide Conflict, SpecFor, ConfigFor, Record, SpecsEqual;
  }

  lemma PublishKeeps(w: World, y: System, k: NodeKey, fails: bool, y': System)
    requires Inv(w, y) && Publishes(w, y, k, fails, y')
    ensures Inv(w, y')
  {
    hide RecoverySound, Agree, WatchersOk, Published, Changes, NeedsUpsert;
    var wanted, owned := y.pass.desired[k], Lookup(y.pass.owned, k);
    assert OwnedIs(y.core, k, owned);
    PublishedKeeps(w.config, y.core, k, wanted, owned, fails);
    PublishedRecovery(w.config, y.core, k, wanted, owned, fails);
    PublishedApplied(w.config, y.core, k, wanted, owned, fails);
    hide OnlyKey;
    forall j | j in y'.core.applied ensures j in y'.via && y'.api == Some(y'.via[j]) {
      assert j != k ==> Lookup(y'.core.applied, j) == Lookup(y.core.applied, j);
    }
  }

  lemma FinishKeeps(w: World, y: System, y': System)
    requires Inv(w, y) && Finishes(y, y')
    ensures Inv(w, y')
  {
    hide WatchersOk, RecoveryOk;
  }

  lemma RemoveKeyKeeps(w: World, y: System, k: NodeKey, fails: bool, y': System)
    requires Inv(w, y) && Removes(y, k, fails, y')
    ensures Inv(w, y')
  {
    hide WatchersOk, RecoveryOk, StillOwned;
  }

  lemma EndRemovalKeeps(w: World, y: System, y': System)
    requires Inv(w, y) && EndsRemoval(y, y')
    ensures Inv(w, y')
  {
    hide WatchersOk, RecoveryOk;
  }

  lemma ClearedKeeps(s: State)
    requires Agree(s, {}) && RecoverySound(s)
    ensures Agree(Cleared(s), {}) && RecoverySound(Cleared(s))
  {
  }

  lemma StartKeeps(w: World, y: System, y': System)
    requires Inv(w, y) && Starts(w, y, y')
    ensures Inv(w, y')
  {
    hide Agree, RecoverySound;
  }

  lemma AttachKeeps(w: World, y: System, api: Api, device: map<NodeKey, Spec>, y': System)
    requires Inv(w, y) && Attaches(w, y, api, device, y')
    ensures Inv(w, y')
  {
    DeviceKeeps(y.core, device);
    ClearedKeeps(y.core.(device := device));
    hide Agree, RecoverySound;
  }

  lemma DeviceKeeps(s: State, device: map<NodeKey, Spec>)
    ensures Agree(s, {}) ==> Agree(s.(device := device), {})
    ensures RecoverySound(s) ==> RecoverySound(s.(device := device))
  {
  }

  lemma WakeKeeps(w: World, y: System, generation: nat, api: Api, y': System)
    requires Inv(w, y) && Wakes(y, generation, api, y')
    ensures Inv(w, y')
  {
    hide Agree, RecoverySound;
    if generation == y.generation {
      ClearedKeeps(y.core);
    }
  }

  lemma PathKeeps(w: World, y: System, update: PathUpdate, stopping: bool)
    requires Inv(w, y)
    ensures Inv(w, y.(core := OnPath(y.core, update, stopping)))
  {
    hide WatchersOk, ViaOk, PassOk, Known, Moved;
    var l := y.core.LocalOf(update.key);
    MovedRecovery(l, update.Kind(), update.addr.Unmap(), update.latency, update.at);
  }

  lemma RecoverKeeps(w: World, y: System, now: Time, idle: set<NodeKey>)
    requires Inv(w, y)
    ensures Inv(w, y.(core := Recovered(w.config, y.core, now, idle)))
  {
    hide WatchersOk, ViaOk, PassOk;
  }

  /** Steps that only edit what reconciling reads. */
  lemma EditKeeps(w: World, y: System, core: State)
    requires Inv(w, y) && core.local == y.core.local && core.applied == y.core.applied && core.bound == y.core.bound
    requires y.runtime.None? ==> core.nodes == y.core.nodes
    ensures Inv(w, y.(core := core))
  {
    hide WatchersOk, ViaOk, PassOk, RecoveryOk;
  }

  lemma NextKeeps(w: World, y: System, step: Step, y': System)
    requires Inv(w, y) && Next(w, y, step, y')
    ensures Inv(w, y')
  {
    hide Inv, Begins, Drops, Publishes, Finishes, Removes, EndsRemoval, Starts, Attaches, Wakes, OnPath, Recovered;
    match step
    case MapUpdate(_, _) => EditKeeps(w, y, y'.core);
    case Confirm(_) => EditKeeps(w, y, y'.core);
    case Revoke(_) => EditKeeps(w, y, y'.core);
    case Foreign(_) => EditKeeps(w, y, y'.core);
    case Path(update, stopping) => PathKeeps(w, y, update, stopping);
    case Recover(now, idle) => RecoverKeeps(w, y, now, idle);
    case Begin(desired) => BeginKeeps(w, y, desired, y');
    case Drop(key, fails) => DropKeeps(w, y, key, fails, y');
    case Publish(key, fails) => PublishKeeps(w, y, key, fails, y');
    case Finish => FinishKeeps(w, y, y');
    case BeginRemoval => BeginRemovalKeeps(w, y);
    case RemoveKey(key, fails) => RemoveKeyKeeps(w, y, key, fails, y');
    case FinishRemoval => EndRemovalKeeps(w, y, y');
    case Start => StartKeeps(w, y, y');
    case Attach(api, device) => AttachKeeps(w, y, api, device, y');
    case Close(api) => CloseKeeps(w, y, api);
    case Wake(generation, api) => WakeKeeps(w, y, generation, api, y');
  }

  lemma BeginRemovalKeeps(w: World, y: System)
    requires Inv(w, y) && y.pass.Idle?
    ensures Inv(w, y.(pass := Removing(y.core.applied, y.core.applied.Keys)))
  {
    hide WatchersOk, ViaOk, RecoverySound;
  }

  lemma CloseKeeps(w: World, y: System, api: Api)
    requires Inv(w, y)
    ensures Inv(w, y.(closed := y.closed + {api}))
  {
    hide WatchersOk, ViaOk, RecoverySound, PassOk, Agree;
  }

  lemma {:induction false} RunsKeep(w: World, states: seq<System>, steps: seq<Step>, i: nat)
    requires Run(w, states, steps) && i < |states|
    ensures Inv(w, states[i])
  {
    if i == 0 {
      InitOk(w, states[0]);
    } else {
      hide Inv, Next;
      RunsKeep(w, states, steps, i - 1);
      assert Next(w, states[i - 1], steps[i - 1], states[i - 1 + 1]);
      NextKeeps(w, states[i - 1], steps[i - 1], states[i]);
    }
  }

  lemma InitOk(w: World, y: System)
    requires Init(y)
    ensures Inv(w, y)
  {
  }

  // ----- What follows -----

  /** When nobody holds the reconcile lock, the three records of the published peers coincide. */
  lemma RecordsCoincide(w: World, states: seq<System>, steps: seq<Step>, i: nat)
    requires Run(w, states, steps) && i < |states| && states[i].pass.Idle?
    ensures var s := states[i].core;
            s.applied.Keys == s.bound.Keys == set k | k in s.local && s.local[k].applied
  {
    hide Run;
    RunsKeep(w, states, steps, i);
  }

  /** Every published peer was written through the attached API, which has the identity of the runtime. */
  lemma AppliedThroughAttached(w: World, states: seq<System>, steps: seq<Step>, i: nat, k: NodeKey)
    requires Run(w, states, steps) && i < |states| && k in states[i].core.applied
    ensures var y := states[i];
            && k in y.via && y.api == Some(y.via[k])
            && y.runtime.Some? && w.identity(y.via[k]) == y.runtime.value
  {
    hide Run, Agree, PassOk, RecoverySound, WatchersOk;
    RunsKeep(w, states, steps, i);
  }

  /** The identity of the runtime never changes, and every API accepted after its start has it. */
  lemma OneIdentity(w: World, y: System, step: Step, y': System)
    requires Inv(w, y) && Next(w, y, step, y') && y.runtime.Some?
    ensures y'.runtime == y.runtime
    ensures step.Attach? ==> w.identity(step.api) == y.runtime.value
    ensures step.Attach? ==> y'.core.applied == map[] && y'.generation == y.generation + 1
    ensures y'.api != y.api ==> step.Attach? && y'.api == Some(step.api)
  {
    hide Inv, Published, Dropped, Tidied, Desires, OnPath, Recovered, Changes;
    assert y.started by {
      RuntimeStarted(w, y);
    }
  }

  lemma RuntimeStarted(w: World, y: System)
    requires Inv(w, y) && y.runtime.Some?
    ensures y.started
  {
  }

  /** A watcher of an earlier attachment, or of another API, changes nothing but the set of watchers. */
  lemma StaleWatcher(w: World, y: System, generation: nat, api: Api, y': System)
    requires Inv(w, y) && Next(w, y, Wake(generation, api), y') && (generation != y.generation || y.api != Some(api))
    ensures y' == y.(watchers := y.watchers - {(generation, api)})
  {
    hide Agree, PassOk, RecoverySound, ViaOk, RuntimeOk, Cleared;
    assert (generation, api) in y.watchers;
  }

  /** The client's own steps, whatever was edited before, leave what other controllers own. */
  lemma ForeignPeersSurvive(w: World, y: System, step: Step, y': System)
    requires Inv(w, y) && Next(w, y, step, y') && !step.Foreign? && !step.Attach?
    ensures LeavesForeign(w.config, y.core, y'.core)
  {
    hide Agree, RecoverySound, ViaOk, RuntimeOk, WatchersOk, Published, Dropped, Desires, Changes, OwnTransport;
    if step.Drop? {
      DroppedLeavesForeign(w.config, y.core, step.key, y.pass.owned[step.key], step.fails);
    } else if step.Publish? {
      var owned := Lookup(y.pass.owned, step.key);
      PublishedLeavesForeign(w.config, y.core, step.key, y.pass.desired[step.key], owned, step.fails);
    } else {
      SameDevice(w, y, step, y');
    }
  }

  /** Of the other steps only shutdown deletes, and only what is still as published. */
  lemma SameDevice(w: World, y: System, step: Step, y': System)
    requires Inv(w, y) && Next(w, y, step, y') && !step.Foreign? && !step.Attach? && !step.Drop? && !step.Publish?
    ensures step.RemoveKey? || y'.core.device == y.core.device
    ensures LeavesForeign(w.config, y.core, y'.core)
  {
    hide Agree, RecoverySound, ViaOk, RuntimeOk, WatchersOk, Desires, OwnTransport, Known, Moved, Overdue;
  }

  // ----- Recovery over runs -----

  predicate RecoveringFrom(s: State, k: NodeKey, a: AddrPort) {
    k in s.local && s.local[k].recovering && s.local[k].recoveryDirect == a
  }

  /** The recovery of `k` is the same before and after, unless its local state is gone. */
  ghost predicate SameRecovery(s: State, s': State, k: NodeKey) {
    && (k in s'.local && s'.local[k].recovering ==> RecoveringFrom(s, k, s'.local[k].recoveryDirect))
    && (k in s.local && s.local[k].recovering && k in s'.local ==> RecoveringFrom(s', k, s.local[k].recoveryDirect))
  }

  lemma PublishedSameRecovery(c: Config, s: State, j: NodeKey, wanted: Wanted, owned: Option<AppliedPeer>,
                              fails: bool, k: NodeKey)
    ensures SameRecovery(s, Published(c, s, j, wanted, owned, fails), k)
  {
    hide Conflict, NeedsUpsert, SpecFor, ConfigFor, Record;
  }

  lemma DroppedSameRecovery(s: State, j: NodeKey, owned: AppliedPeer, fails: bool, k: NodeKey)
    ensures SameRecovery(s, Dropped(s, j, owned, fails), k)
  {
    hide StillOwned;
  }

  lemma OthersSameRecovery(w: World, y: System, step: Step, y': System, k: NodeKey)
    requires Next(w, y, step, y') && !step.Path? && !step.Recover?
    ensures SameRecovery(y.core, y'.core, k)
  {
    hide Published, Dropped, Desires, Changes;
    if step.Drop? {
      DroppedSameRecovery(y.core, step.key, y.pass.owned[step.key], step.fails, k);
    } else if step.Publish? {
      PublishedSameRecovery(w.config, y.core, step.key, y.pass.desired[step.key], Lookup(y.pass.owned, step.key),
                            step.fails, k);
    }
  }

  /** The update says that `k` is not, or no longer, on the direct address `a`. */
  predicate Leaves(step: Step, k: NodeKey, a: AddrPort) {
    step.Path? && !step.stopping && step.update.key == k && (!step.update.direct || step.update.addr.Unmap() != a)
  }

  lemma PathRecovery(w: World, y: System, step: Step, y': System, k: NodeKey)
    requires RecoverySound(y.core) && step.Path? && Next(w, y, step, y')
    ensures k in y'.core.local && y'.core.local[k].recovering ==>
              RecoveringFrom(y.core, k, y'.core.local[k].recoveryDirect)
    ensures k in y.core.local && y.core.local[k].recovering ==>
              var a := y.core.local[k].recoveryDirect;
              k in y'.core.local && (RecoveringFrom(y'.core, k, a) <==> !Leaves(step, k, a))
              && (y'.core.local[k].recovering <==> RecoveringFrom(y'.core, k, a))
  {
    hide Moved;
    var u := step.update;
    var l := y.core.LocalOf(u.key);
    MovedRecovery(l, u.Kind(), u.addr.Unmap(), u.latency, u.at);
    hide RecoveryOk;
  }

  /**
   * Recovery starts only for a peer that is published on the default transport at its current
   * direct address and whose grace is over, and it is then for that address.
   */
  lemma RecoveryStarts(w: World, y: System, step: Step, y': System, k: NodeKey)
    requires Inv(w, y) && Next(w, y, step, y')
    requires k in y'.core.local && y'.core.local[k].recovering && !(k in y.core.local && y.core.local[k].recovering)
    ensures step.Recover? && k in y.core.local && k in step.idle
    ensures Overdue(w.config, y.core, k, step.now) && y'.core.local[k].recoveryDirect == y.core.local[k].direct
  {
    hide Agree, PassOk, ViaOk, RuntimeOk, WatchersOk, Next, Overdue;
    if step.Path? {
      PathRecovery(w, y, step, y', k);
    } else if !step.Recover? {
      OthersSameRecovery(w, y, step, y', k);
    } else {
      RecoverIs(w, y, step, y');
    }
  }

  lemma RecoverIs(w: World, y: System, step: Step, y': System)
    requires Next(w, y, step, y') && step.Recover?
    ensures y'.core == y.core || y'.core == Recovered(w.config, y.core, step.now, step.idle)
  {
  }

  /** Recovery ends exactly with an update for another kind of path or address, or with the local state. */
  lemma RecoveryEnds(w: World, y: System, step: Step, y': System, k: NodeKey, a: AddrPort)
    requires Inv(w, y) && Next(w, y, step, y') && RecoveringFrom(y.core, k, a)
    ensures RecoveringFrom(y'.core, k, a) <==> k in y'.core.local && !Leaves(step, k, a)
  {
    hide Agree, PassOk, ViaOk, RuntimeOk, WatchersOk, Next;
    if step.Path? {
      PathRecovery(w, y, step, y', k);
    } else if !step.Recover? {
      OthersSameRecovery(w, y, step, y', k);
    } else {
      RecoverIs(w, y, step, y');
    }
  }

  /** Until then, every pass that begins wants the named transport for the peer. */
  lemma {:induction false} RecoveryLasts(w: World, states: seq<System>, steps: seq<Step>, i: nat, j: nat, k: NodeKey,
                                         a: AddrPort)
    requires Run(w, states, steps) && i <= j < |states| && RecoveringFrom(states[i].core, k, a)
    requires forall m :: i <= m <= j ==> k in states[m].core.local
    requires forall m :: i <= m < j ==> !Leaves(steps[m], k, a)
    ensures RecoveringFrom(states[j].core, k, a)
    ensures j < |steps| && steps[j].Begin? && k in steps[j].desired ==>
              SpecFor(w.config, steps[j].desired[k]).endpoint == Some(Endpoint(w.config.transport, w.config.keyText(k)))
  {
    hide Next, Inv, RecoveringFrom, Leaves, SpecFor;
    if i < j {
      assert Next(w, states[j - 1], steps[j - 1], states[j - 1 + 1]);
      RecoveryLasts(w, states, steps, i, j - 1, k, a);
      RunsKeep(w, states, steps, j - 1);
      RecoveryEnds(w, states[j - 1], steps[j - 1], states[j], k, a);
    }
    if j < |steps| && steps[j].Begin? && k in steps[j].desired {
      assert Next(w, states[j], steps[j], states[j + 1]);
      BeginsNamed(w, states[j], steps[j], states[j + 1], k, a);
    }
  }

  lemma BeginsNamed(w: World, y: System, step: Step, y': System, k: NodeKey, a: AddrPort)
    requires Next(w, y, step, y') && step.Begin? && k in step.desired && RecoveringFrom(y.core, k, a)
    ensures SpecFor(w.config, step.desired[k]).endpoint == Some(Endpoint(w.config.transport, w.config.keyText(k)))
  {
    hide Desires, SpecFor;
    RecoveringIsNamed(w.config, y.core, step.desired, k);
  }

  // ----- A pass from its beginning -----

  /** A pass ends only by finishing, and until then keeps what it wants. */
  lemma PassGoesOn(w: World, y: System, step: Step, y': System)
    requires Next(w, y, step, y') && y.pass.Reconciling? && !step.Finish?
    ensures y'.pass.Reconciling? && y'.pass.desired == y.pass.desired
  {
    hide Published, Dropped, Desires, Changes, OnPath, Recovered;
  }

  /** Step `m` comes in the pass that step `b` begins. */
  ghost predicate InPass(steps: seq<Step>, b: nat, m: nat) {
    b < m <= |steps| && steps[b].Begin? && forall j :: b < j < m ==> !steps[j].Finish?
  }

  lemma {:induction false} PassWants(w: World, states: seq<System>, steps: seq<Step>, b: nat, m: nat)
    requires Run(w, states, steps) && InPass(steps, b, m)
    ensures states[m].pass.Reconciling? && states[m].pass.desired == steps[b].desired
  {
    assert Next(w, states[m - 1], steps[m - 1], states[m - 1 + 1]);
    if m != b + 1 {
      hide Next;
      PassWants(w, states, steps, b, m - 1);
      PassGoesOn(w, states[m - 1], steps[m - 1], states[m]);
    }
  }

  /** The step records the key, neither in conflict nor refused by the device. */
  ghost predicate Records(w: World, y: System, step: Step) {
    && step.Publish? && y.pass.Reconciling? && step.key in y.pass.desired
    && var wanted, owned := y.pass.desired[step.key], Lookup(y.pass.owned, step.key);
       && !Conflict(w.config, y.core, step.key, owned)
       && !(NeedsUpsert(w.config, y.core, step.key, wanted, owned) && step.fails)
  }

  /** What is recorded, and what is then on the device, has the endpoint wanted when the pass began. */
  lemma RecordsWanted(w: World, states: seq<System>, steps: seq<Step>, b: nat, m: nat)
    requires Run(w, states, steps) && InPass(steps, b, m) && m < |steps| && Records(w, states[m], steps[m])
    ensures var k, core := steps[m].key, states[m + 1].core;
            && k in steps[b].desired && k in core.applied && k in core.device
            && core.applied[k].endpoint == core.device[k].endpoint == SpecFor(w.config, steps[b].desired[k]).endpoint
  {
    PassWants(w, states, steps, b, m);
    assert Next(w, states[m], steps[m], states[m + 1]);
    hide Run, SpecFor, Changes, Conflict;
  }

  /** A pass puts a peer that recovers when it begins on the named transport, on record and on the device. */
  lemma RecoveryPublishes(w: World, states: seq<System>, steps: seq<Step>, b: nat, m: nat, a: AddrPort)
    requires Run(w, states, steps) && InPass(steps, b, m) && m < |steps| && Records(w, states[m], steps[m])
    requires RecoveringFrom(states[b].core, steps[m].key, a)
    ensures var k, core := steps[m].key, states[m + 1].core;
            && k in core.applied && k in core.device
            && core.applied[k].endpoint == core.device[k].endpoint
            && core.applied[k].endpoint == Some(Endpoint(w.config.transport, w.config.keyText(k)))
  {
    RecordsWanted(w, states, steps, b, m);
    assert Next(w, states[b], steps[b], states[b + 1]);
    hide Run, Next, Records, SpecFor, InPass;
    BeginsNamed(w, states[b], steps[b], states[b + 1], steps[m].key, a);
  }

  /**
   * The exception is a pass already under way: a peer on a direct path is put on the named
   * transport exactly if it was recovering when the pass began, marked or not by the time it is published.
   */
  lemma InFlightExactly(w: World, states: seq<System>, steps: seq<Step>, b: nat, m: nat)
    requires w.config.useDefaultTransport && w.config.transport != w.config.defaultTransport
    requires Run(w, states, steps) && InPass(steps, b, m) && m < |steps| && Records(w, states[m], steps[m])
    requires var l := states[b].core.LocalOf(steps[m].key); l.path == DirectPath && l.direct.Unmap().IsValid()
    ensures steps[m].key in states[m + 1].core.applied
    ensures states[m + 1].core.applied[steps[m].key].endpoint ==
              Some(Endpoint(w.config.transport, w.config.keyText(steps[m].key)))
            <==> states[b].core.LocalOf(steps[m].key).recovering
  {
    RecordsWanted(w, states, steps, b, m);
    assert Next(w, states[b], steps[b], states[b + 1]);
    hide Run, Next, Records, InPass;
    BeginWants(w, states[b], steps[b], states[b + 1], steps[m].key);
  }

  lemma BeginWants(w: World, y: System, step: Step, y': System, k: NodeKey)
    requires Next(w, y, step, y') && step.Begin? && k in step.desired
    ensures var l, wanted := y.core.LocalOf(k), step.desired[k];
            && wanted.path == l.path && wanted.direct == l.direct && wanted.recovering == l.recovering
            && wanted.node.key == k
  {
    hide Eligible;
    var i :| i in y.core.nodes && IsChoice(w.config, y.core, k, step.desired[k], i);
  }

  /** Within a pass only wanted keys and keys still to be dropped are applied, if no delete fails. */
  lemma StaysWithin(w: World, y: System, step: Step, y': System)
    requires Inv(w, y) && Next(w, y, step, y') && y.pass.Reconciling? && !step.Finish? && !(step.Drop? && step.fails)
    requires y.core.applied.Keys <= y.pass.desired.Keys + y.pass.drops
    ensures y'.pass.Reconciling? && y'.core.applied.Keys <= y'.pass.desired.Keys + y'.pass.drops
  {
    hide Agree, RecoverySound, ViaOk, RuntimeOk, WatchersOk, Published, Desires, Changes, OnPath, Recovered;
    if step.Publish? {
      PublishedApplied(w.config, y.core, step.key, y.pass.desired[step.key], Lookup(y.pass.owned, step.key),
                       step.fails);
      forall k | k in y'.core.applied ensures k in y'.pass.desired {
        assert k != step.key ==> Lookup(y'.core.applied, k) == Lookup(y.core.applied, k);
      }
    } else {
      AppliedShrinks(w, y, step, y');
    }
  }

  lemma AppliedShrinks(w: World, y: System, step: Step, y': System)
    requires Next(w, y, step, y') && y.pass.Reconciling? && !step.Finish? && !step.Publish?
    ensures y'.core.applied.Keys <= y.core.applied.Keys
    ensures y'.pass.Reconciling? && y'.pass.desired == y.pass.desired
    ensures step.Drop? && !step.fails ==>
              step.key !in y'.core.applied && y'.pass.drops == y.pass.drops - {step.key}
    ensures !step.Drop? ==> y'.pass.drops == y.pass.drops
  {
    hide Published, Desires, Changes, Known, Moved, RecoveredLocal;
  }

  lemma {:induction false} AppliedWithin(w: World, states: seq<System>, steps: seq<Step>, b: nat, m: nat)
    requires Run(w, states, steps) && InPass(steps, b, m)
    requires forall j :: b < j < m ==> !(steps[j].Drop? && steps[j].fails)
    ensures states[m].pass.Reconciling?
    ensures states[m].core.applied.Keys <= states[m].pass.desired.Keys + states[m].pass.drops
  {
    hide Next, Inv;
    assert Next(w, states[m - 1], steps[m - 1], states[m - 1 + 1]);
    if m == b + 1 {
      BeginWithin(w, states[b], steps[b], states[b + 1]);
    } else {
      AppliedWithin(w, states, steps, b, m - 1);
      RunsKeep(w, states, steps, m - 1);
      StaysWithin(w, states[m - 1], steps[m - 1], states[m]);
    }
  }

  lemma BeginWithin(w: World, y: System, step: Step, y': System)
    requires Next(w, y, step, y') && step.Begin?
    ensures y'.pass.Reconciling? && y'.core.applied.Keys <= y'.pass.desired.Keys + y'.pass.drops
  {
    hide Desires;
  }

  ghost predicate KeyEligible(c: Config, s: State, k: NodeKey) {
    exists i :: i in s.nodes && s.nodes[i].key == k && Eligible(c, s, s.nodes[i])
  }

  /**
   * Whatever comes in between, a pass in which no delete fails ends with no key applied but those
   * of nodes that were eligible when it began.
   */
  lemma OnlyEligibleApplied(w: World, states: seq<System>, steps: seq<Step>, b: nat, m: nat, k: NodeKey)
    requires Run(w, states, steps) && InPass(steps, b, m) && m < |steps| && steps[m].Finish?
    requires forall j :: b < j < m ==> !(steps[j].Drop? && steps[j].fails)
    requires k in states[m + 1].core.applied
    ensures k in steps[b].desired && KeyEligible(w.config, states[b].core, k)
  {
    hide Next, KeyEligible;
    PassWants(w, states, steps, b, m);
    AppliedWithin(w, states, steps, b, m);
    assert Next(w, states[m], steps[m], states[m + 1]);
    assert Next(w, states[b], steps[b], states[b + 1]);
    FinishedApplied(w, states[m], steps[m], states[m + 1]);
    BeginEligible(w, states[b], steps[b], states[b + 1], k);
  }

  lemma FinishedApplied(w: World, y: System, step: Step, y': System)
    requires Next(w, y, step, y') && step.Finish?
    ensures y.pass.Reconciling? && y.pass.drops == {} && y'.core.applied == y.core.applied
  {
  }

  lemma BeginEligible(w: World, y: System, step: Step, y': System, k: NodeKey)
    requires Next(w, y, step, y') && step.Begin? && k in step.desired
    ensures KeyEligible(w.config, y.core, k)
  {
    hide Eligible;
    var i :| i in y.core.nodes && IsChoice(w.config, y.core, k, step.desired[k], i);
  }
}
