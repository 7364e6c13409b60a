/**
 * A run of the client in which a pass that is under way when a peer is marked for recovery still
 * publishes the direct address: the exception that `Protocol.InFlightExactly` describes.
 */
module InFlight {
  import opened Addresses
  import opened Nodes
  import opened Options
  import opened Reconciler
  import PeerIndex
  import opened Protocol

  const NODE := Node(1, "a", "", 7, 0, [], [], [], 0, 0, false, false, false, None, None, None, 0)
  const ADDR := PeerIndex.ENDPOINT
  const UPDATE := PathUpdate(7, true, ADDR, 0, 0)

  /** The local state of a peer on the direct path. */
  function OnDirect(applied: bool, recovering: bool): Local {
    Local(applied, DirectPath, ADDR, 0, Some(0), recovering, if recovering then ADDR else PeerIndex.NO_ADDR, false)
  }

  const WANTED := Wanted(NODE, "a", 0, DirectPath, ADDR, false)

  function DirectEndpoint(c: Config): Endpoint {
    Endpoint(c.defaultTransport, c.addrText(ADDR))
  }

  function Specs(c: Config): map<PeerIndex.NodeKey, Spec> {
    map[7 := Spec(Some(DirectEndpoint(c)), [], c.profile)]
  }

  function Recorded(c: Config): map<PeerIndex.NodeKey, AppliedPeer> {
    map[7 := AppliedPeer("a", Some(DirectEndpoint(c)))]
  }

  /** The client with a running runtime and a direct path to its one peer. */
  function Ready(w: World): System {
    System(State(map[1 := NODE], {}, 0, map[7 := OnDirect(false, false)], map[], map[], map[], 1), Idle, true,
           Some(w.identity(0)), Some(0), 2, {(2, 0)}, {}, map[])
  }

  /** The same after the peer is published at its direct address. */
  function Direct(w: World): System {
    var c := w.config;
    Ready(w).(core := State(map[1 := NODE], {}, 0, map[7 := OnDirect(true, false)], Recorded(c),
                            map[7 := ConfigFor(7, WANTED)], Specs(c), 2),
              via := map[7 := 0])
  }

  /** A pass under way, for a peer marked or not. */
  function UnderWay(w: World, marked: bool): System {
    var y := Direct(w);
    y.(core := y.core.(local := map[7 := OnDirect(true, marked)]),
       pass := Reconciling(map[7 := WANTED], Recorded(w.config), {}, {7}, false))
  }

  /** The situation at hand: default transport for direct peers, no confirmation, an API with a key. */
  predicate Applies(w: World) {
    && w.config.useDefaultTransport && !w.config.confirmPeers && w.config.transport != w.config.defaultTransport
    && w.identity(0) != 0
  }

  /** A run so far, which is in state `y`. */
  ghost predicate RunTo(w: World, states: seq<System>, steps: seq<Step>, y: System) {
    Run(w, states, steps) && states[|steps|] == y
  }

  lemma Extend(w: World, states: seq<System>, steps: seq<Step>, y: System, step: Step, y': System)
    requires RunTo(w, states, steps, y) && Next(w, y, step, y')
    ensures RunTo(w, states + [y'], steps + [step], y')
  {
    hide Next;
  }

  lemma AddrFacts()
    ensures ADDR.Unmap() == ADDR && ADDR.IsValid() && ADDR != PeerIndex.NO_ADDR
  {
    PeerIndex.EndpointUsable();
    PeerIndex.ValidIfUsable(ADDR);
  }

  lemma Begun(w: World, y: System)
    requires Applies(w) && y.core.nodes == map[1 := NODE] && y.core.local.Keys == {7}
    requires y.core.local[7] == OnDirect(y.core.local[7].applied, false) && y.core.preferredDERP == 0
    ensures Desires(w.config, y.core, map[7 := WANTED])
    ensures SpecFor(w.config, WANTED) == Specs(w.config)[7]
  {
    AddrFacts();
    hide ADDR, PeerIndex.NO_ADDR;
    assert IsChoice(w.config, y.core, 7, WANTED, 1);
  }

  lemma ToReady(w: World) returns (states: seq<System>, steps: seq<Step>)
    requires Applies(w)
    ensures RunTo(w, states, steps, Ready(w))
  {
    AddrFacts();
    hide RunTo, ADDR, PeerIndex.NO_ADDR;
    var y0 := System(NEW_STATE, Idle, false, None, None, 0, {}, {}, map[]);
    states, steps := [y0], [];
    StartsRun(w, y0);
    var y1 := y0.(api := Some(0), generation := 1);
    Extend(w, states, steps, y0, Attach(0, map[]), y1);
    states, steps := states + [y1], steps + [Attach(0, map[])];
    var y2 := y1.(started := true, runtime := Some(w.identity(0)), generation := 2, watchers := {(2, 0)});
    Extend(w, states, steps, y1, Start, y2);
    states, steps := states + [y2], steps + [Start];
    var y3 := y2.(core := y2.core.(nodes := map[1 := NODE], preferredDERP := 0));
    Extend(w, states, steps, y2, MapUpdate(map[1 := NODE], 0), y3);
    states, steps := states + [y3], steps + [MapUpdate(map[1 := NODE], 0)];
    PathIs(y3.core);
    Extend(w, states, steps, y3, Path(UPDATE, false), Ready(w));
    states, steps := states + [Ready(w)], steps + [Path(UPDATE, false)];
  }

  lemma StartsRun(w: World, y: System)
    requires Init(y)
    ensures RunTo(w, [y], [], y)
  {
  }

  lemma PathIs(s: State)
    requires s == NEW_STATE.(nodes := map[1 := NODE])
    ensures OnPath(s, UPDATE, false) == s.(local := map[7 := OnDirect(false, false)], revision := 1)
  {
    AddrFacts();
    hide ADDR, PeerIndex.NO_ADDR;
    assert Known(s, 7) by {
      assert s.nodes[1].key == 7;
    }
  }

  lemma ToDirect(w: World) returns (states: seq<System>, steps: seq<Step>)
    requires Applies(w)
    ensures RunTo(w, states, steps, Direct(w))
  {
    hide RunTo, ADDR, PeerIndex.NO_ADDR;
    states, steps := ToReady(w);
    var y := Ready(w);
    Begun(w, y);
    var y1 := y.(pass := Reconciling(map[7 := WANTED], map[], {}, {7}, false));
    BeginsReady(w, y, y1);
    Extend(w, states, steps, y, Begin(map[7 := WANTED]), y1);
    states, steps := states + [y1], steps + [Begin(map[7 := WANTED])];
    var y2 := Direct(w).(pass := Reconciling(map[7 := WANTED], map[], {}, {}, true),
                         core := Direct(w).core.(revision := 1));
    PublishesDirect(w, y1, y2);
    Extend(w, states, steps, y1, Publish(7, false), y2);
    states, steps := states + [y2], steps + [Publish(7, false)];
    FinishesDirect(w, y2);
    Extend(w, states, steps, y2, Finish, Direct(w));
    states, steps := states + [Direct(w)], steps + [Finish];
  }

  lemma BeginsReady(w: World, y: System, y': System)
    requires y == Ready(w) && Desires(w.config, y.core, map[7 := WANTED])
    requires y' == y.(pass := Reconciling(map[7 := WANTED], map[], {}, {7}, false))
    ensures Next(w, y, Begin(map[7 := WANTED]), y')
  {
    hide Desires, ADDR, PeerIndex.NO_ADDR;
    assert map[7 := WANTED].Keys == {7} && y.core.applied.Keys - {7} == {};
  }

  lemma PublishesDirect(w: World, y: System, y': System)
    requires Applies(w) && y == Ready(w).(pass := Reconciling(map[7 := WANTED], map[], {}, {7}, false))
    requires y' == Direct(w).(pass := Reconciling(map[7 := WANTED], map[], {}, {}, true),
                              core := Direct(w).core.(revision := 1))
    ensures Next(w, y, Publish(7, false), y')
  {
    Begun(w, Ready(w));
    hide ADDR, PeerIndex.NO_ADDR, SpecFor, ConfigFor, Desires, DirectEndpoint;
    assert {7} - {7} == {};
  }

  lemma FinishesDirect(w: World, y: System)
    requires y == Direct(w).(pass := Reconciling(map[7 := WANTED], map[], {}, {}, true),
                             core := Direct(w).core.(revision := 1))
    ensures Next(w, y, Finish, Direct(w))
  {
    hide ADDR, PeerIndex.NO_ADDR, ConfigFor, DirectEndpoint;
    assert Tidied(y.core, {7}).local == y.core.local;
  }

  /** The peer is marked after the pass began, and the pass then records its direct address. */
  lemma MarkedTooLate(w: World) returns (states: seq<System>, steps: seq<Step>)
    requires Applies(w)
    ensures Run(w, states, steps) && |steps| > 0 && steps[|steps| - 1] == Publish(7, false)
    ensures RecoveringFrom(states[|steps| - 1].core, 7, ADDR)
    ensures 7 in states[|steps|].core.applied
    ensures states[|steps|].core.applied[7].endpoint == Some(DirectEndpoint(w.config))
  {
    hide RunTo, Next, ADDR, PeerIndex.NO_ADDR;
    states, steps := ToDirect(w);
    var y := Direct(w);
    BeginsAgain(w);
    Extend(w, states, steps, y, Begin(map[7 := WANTED]), UnderWay(w, false));
    states, steps := states + [UnderWay(w, false)], steps + [Begin(map[7 := WANTED])];
    Marks(w);
    Extend(w, states, steps, UnderWay(w, false), Recover(HANDSHAKE_GRACE, {7}), UnderWay(w, true));
    states, steps := states + [UnderWay(w, true)], steps + [Recover(HANDSHAKE_GRACE, {7})];
    var last := PublishesAgain(w);
    Extend(w, states, steps, UnderWay(w, true), Publish(7, false), last);
    LastButOne(w, states, steps, UnderWay(w, true), Publish(7, false), last);
    states, steps := states + [last], steps + [Publish(7, false)];
  }

  lemma LastButOne(w: World, states: seq<System>, steps: seq<Step>, y: System, step: Step, y': System)
    requires RunTo(w, states, steps, y) && RunTo(w, states + [y'], steps + [step], y')
    ensures var all, todo := states + [y'], steps + [step];
            && Run(w, all, todo) && |all| == |todo| + 1
            && all[|todo|] == y' && all[|todo| - 1] == y && todo[|todo| - 1] == step
  {
    hide Next;
  }

  lemma BeginsAgain(w: World)
    requires Applies(w)
    ensures Next(w, Direct(w), Begin(map[7 := WANTED]), UnderWay(w, false))
  {
    Begun(w, Direct(w));
    hide Desires, ADDR, PeerIndex.NO_ADDR, DirectEndpoint;
    assert map[7 := WANTED].Keys == {7} && Recorded(w.config).Keys == {7} && Recorded(w.config).Keys - {7} == {};
  }

  lemma Marks(w: World)
    requires Applies(w)
    ensures Next(w, UnderWay(w, false), Recover(HANDSHAKE_GRACE, {7}), UnderWay(w, true))
  {
    AddrFacts();
    hide ADDR, PeerIndex.NO_ADDR;
    var s := UnderWay(w, false).core;
    assert Overdue(w.config, s, 7, HANDSHAKE_GRACE);
    assert Recovered(w.config, s, HANDSHAKE_GRACE, {7}).local == UnderWay(w, true).core.local;
  }

  lemma PublishesAgain(w: World) returns (y: System)
    requires Applies(w)
    ensures Next(w, UnderWay(w, true), Publish(7, false), y)
    ensures y.core.applied == Recorded(w.config)
  {
    Begun(w, Direct(w));
    hide ADDR, PeerIndex.NO_ADDR, SpecFor, ConfigFor, Desires, DirectEndpoint;
    var u := UnderWay(w, true);
    var core := Published(w.config, u.core, 7, WANTED, Some(Recorded(w.config)[7]), false);
    y := u.(core := core, pass := u.pass.(publishes := {7} - {7},
              changed := Changes(w.config, u.core, 7, WANTED, Some(Recorded(w.config)[7]), false)));
  }
}
