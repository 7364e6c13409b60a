/**
 * Choosing the home relay region (`map.go`, `client.go`): the choice itself, the client state that
 * repeats it on every map and latency report, and how often measurements can make it move.
 */
module DerpHome {
  import opened Options
  import opened Ordering
  import opened Sets

  /** Durations are in nanoseconds. */
  const TEN_MILLISECONDS := 10_000_000

  datatype DerpNode = DerpNode(stunOnly: bool)

  datatype Region = Region(noMeasureNoHome: bool, nodes: seq<DerpNode>)

  /** `regions` is missing when the control server left it out. */
  datatype DerpMap = DerpMap(regions: Option<map<int, Region>>, omitDefaultRegions: bool)

  predicate UsableRegion(region: Region) {
    !region.noMeasureNoHome && exists i :: 0 <= i < |region.nodes| && !region.nodes[i].stunOnly
  }

  predicate Usable(derpMap: Option<DerpMap>, id: int) {
    && derpMap.Some? && derpMap.value.regions.Some?
    && id in derpMap.value.regions.value && UsableRegion(derpMap.value.regions.value[id])
  }

  // ----- The choice without measurements -----

  ghost predicate IsFallback(derpMap: Option<DerpMap>, current: int, home: int) {
    if Usable(derpMap, current) then home == current
    else if exists id :: Usable(derpMap, id) then
      Usable(derpMap, home) && forall id :: Usable(derpMap, id) ==> home <= id
    else home == 0
  }

  method ChoosePreferredDERP(derpMap: Option<DerpMap>, current: int) returns (home: int)
    ensures IsFallback(derpMap, current, home)
  {
    hide UsableRegion;
    if derpMap.None? {
      return 0;
    }
    if Usable(derpMap, current) {
      return current;
    }
    var ids := UsableIds(derpMap);
    assert TotalOrder(IntLe);
    SortSorts(ids, IntLe);
    var sorted := Sort(ids, IntLe);
    if |sorted| == 0 {
      return 0;
    }
    home := sorted[0];
    assert home in ids;
    forall id | Usable(derpMap, id) ensures home <= id {
      assert id in sorted;
    }
  }

  method UsableIds(derpMap: Option<DerpMap>) returns (ids: seq<int>)
    requires derpMap.Some?
    ensures forall id :: id in ids <==> Usable(derpMap, id)
  {
    hide UsableRegion;
    ids := [];
    if derpMap.value.regions.None? {
      return;
    }
    var todo := derpMap.value.regions.value.Keys;
    while todo != {}
      invariant todo <= derpMap.value.regions.value.Keys
      invariant forall id :: id in ids <==> Usable(derpMap, id) && id !in todo
    {
      var id := Pick(todo);
      if UsableRegion(derpMap.value.regions.value[id]) {
        ids := ids + [id];
      }
      todo := todo - {id};
    }
  }

  // ----- The choice with measurements -----

  type Latencies = map<int, int>

  /** A region whose measurement counts. */
  predicate Candidate(derpMap: Option<DerpMap>, measured: Latencies, id: int) {
    id in measured && measured[id] > 0 && Usable(derpMap, id)
  }

  /** The candidate with the least latency, and the least id among those. */
  ghost predicate IsBest(derpMap: Option<DerpMap>, measured: Latencies, best: int) {
    && Candidate(derpMap, measured, best)
    && forall id :: Candidate(derpMap, measured, id) ==>
         measured[best] < measured[id] || (measured[best] == measured[id] && best <= id)
  }

  /** What a measured home holds against a faster region: 10 ms and one third. */
  predicate Sticks(measured: Latencies, current: int, best: int)
    requires current in measured && best in measured
  {
    || measured[current] <= measured[best]
    || measured[current] - measured[best] < TEN_MILLISECONDS
    || measured[best] > measured[current] / 3 * 2
  }

  /** Some region other than 0, which the search takes for none. */
  ghost predicate HasCandidate(derpMap: Option<DerpMap>, measured: Latencies) {
    exists id :: id != 0 && Candidate(derpMap, measured, id)
  }

  /** Region 0 would be the best of several, and whether the search ends with it depends on when it is met. */
  ghost predicate ZeroHides(derpMap: Option<DerpMap>, measured: Latencies) {
    IsBest(derpMap, measured, 0) && HasCandidate(derpMap, measured)
  }

  ghost predicate IsChoice(derpMap: Option<DerpMap>, current: int, measured: Latencies, home: int) {
    if !HasCandidate(derpMap, measured) then IsFallback(derpMap, current, home)
    else exists best :: IsBest(derpMap, measured, best) &&
           home == if Candidate(derpMap, measured, current) && Sticks(measured, current, best) then current else best
  }

  /** One turn of the search over the measurements, in some order. */
  function Better(derpMap: Option<DerpMap>, measured: Latencies, id: int, found: (int, int)): (int, int)
    requires id in measured
  {
    if measured[id] <= 0 || !Usable(derpMap, id) then found
    else if found.0 == 0 || measured[id] < found.1 || (measured[id] == found.1 && id < found.0) then (id, measured[id])
    else found
  }

  function Scan(derpMap: Option<DerpMap>, measured: Latencies, order: seq<int>): (int, int)
    requires forall id :: id in order ==> id in measured
  {
    if order == [] then (0, 0)
    else Better(derpMap, measured, order[|order| - 1], Scan(derpMap, measured, order[..|order| - 1]))
  }

  /** A walk over the measurements, each once. */
  ghost predicate Walk(measured: Latencies, order: seq<int>) {
    Distinct(order) && forall id :: id in order <==> id in measured
  }

  lemma {:induction false} ScanHolds(derpMap: Option<DerpMap>, measured: Latencies, order: seq<int>)
    requires forall id :: id in order ==> id in measured
    ensures var found := Scan(derpMap, measured, order);
            found == (0, 0) ||
            (found.0 in order && Candidate(derpMap, measured, found.0) && found.1 == measured[found.0])
  {
    hide Usable;
    if order != [] {
      ScanHolds(derpMap, measured, order[..|order| - 1]);
    }
  }

  /** A best region other than 0 is found in whatever order the map is walked, region 0 measured or not. */
  lemma {:induction false} ScanFindsBest(derpMap: Option<DerpMap>, measured: Latencies, order: seq<int>, best: int)
    requires IsBest(derpMap, measured, best) && best != 0 && best in order
    requires forall id :: id in order ==> id in measured
    ensures Scan(derpMap, measured, order) == (best, measured[best])
  {
    hide Usable;
    var front, last := order[..|order| - 1], order[|order| - 1];
    if best in front {
      ScanFindsBest(derpMap, measured, front, best);
    } else {
      assert best == last;
      ScanHolds(derpMap, measured, front);
    }
  }

  /** With no candidate but 0 the search ends with 0. */
  lemma {:induction false} ScanFindsNone(derpMap: Option<DerpMap>, measured: Latencies, order: seq<int>)
    requires !HasCandidate(derpMap, measured) && forall id :: id in order ==> id in measured
    ensures Scan(derpMap, measured, order) ==
            (0, if 0 in order && Candidate(derpMap, measured, 0) then measured[0] else 0)
  {
    hide Usable;
    if order != [] {
      var front, last := order[..|order| - 1], order[|order| - 1];
      ScanFindsNone(derpMap, measured, front);
      assert 0 in order <==> 0 in front || last == 0;
      assert last != 0 ==> !Candidate(derpMap, measured, last);
    }
  }

  /** Of several measurements one is the best. */
  lemma {:induction false} BestExists(measured: Latencies, ids: seq<int>) returns (best: int)
    requires ids != [] && forall i :: 0 <= i < |ids| ==> ids[i] in measured
    ensures best in ids
    ensures forall i :: 0 <= i < |ids| ==>
              measured[best] < measured[ids[i]] || (measured[best] == measured[ids[i]] && best <= ids[i])
  {
    best := ids[|ids| - 1];
    if |ids| > 1 {
      var other := BestExists(measured, ids[..|ids| - 1]);
      if measured[other] < measured[best] || (measured[other] == measured[best] && other < best) {
        best := other;
      }
    }
  }

  lemma BestOfAll(derpMap: Option<DerpMap>, measured: Latencies) returns (best: int)
    requires HasCandidate(derpMap, measured)
    ensures IsBest(derpMap, measured, best)
  {
    hide Usable;
    var candidates := set id | id in measured && Candidate(derpMap, measured, id);
    var some :| some != 0 && Candidate(derpMap, measured, some);
    assert some in candidates;
    assert TotalOrder(IntLe);
    var ids := ListOf(candidates, IntLe);
    assert forall i :: 0 <= i < |ids| ==> ids[i] in candidates;
    best := BestExists(measured, ids);
    forall id | Candidate(derpMap, measured, id)
      ensures measured[best] < measured[id] || (measured[best] == measured[id] && best <= id)
    {
      assert id in candidates;
      var i :| 0 <= i < |ids| && ids[i] == id;
    }
  }

  /** Unless region 0 hides others, a walk ends with the best region, or with 0 if there is none but 0. */
  lemma WholeScan(derpMap: Option<DerpMap>, measured: Latencies, order: seq<int>)
    requires !ZeroHides(derpMap, measured) && forall id :: id in order <==> id in measured
    ensures var found := Scan(derpMap, measured, order);
            if HasCandidate(derpMap, measured) then
              found.0 != 0 && IsBest(derpMap, measured, found.0) && found.1 == measured[found.0]
            else found == (0, if Candidate(derpMap, measured, 0) then measured[0] else 0)
  {
    hide Usable, Scan;
    if HasCandidate(derpMap, measured) {
      var best := BestOfAll(derpMap, measured);
      ScanFindsBest(derpMap, measured, order, best);
    } else {
      ScanFindsNone(derpMap, measured, order);
    }
  }

  /** Met first, region 0 is forgotten as soon as another candidate is met. */
  lemma {:induction false} ZeroFirst(derpMap: Option<DerpMap>, measured: Latencies, rest: seq<int>, id: int)
    requires 0 in measured && 0 !in rest && forall i :: i in rest ==> i in measured
    requires id in rest && Candidate(derpMap, measured, id)
    ensures Scan(derpMap, measured, [0] + rest).0 != 0
  {
    hide Usable;
    var front, last := rest[..|rest| - 1], rest[|rest| - 1];
    assert ([0] + rest)[..|rest|] == [0] + front && ([0] + rest)[|rest|] == last;
    if id in front {
      ZeroFirst(derpMap, measured, front, id);
    } else {
      assert id == last;
    }
  }

  /** Met last, region 0 as the best is what the search ends with. */
  lemma ZeroLast(derpMap: Option<DerpMap>, measured: Latencies, rest: seq<int>)
    requires IsBest(derpMap, measured, 0) && forall i :: i in rest ==> i in measured
    ensures Scan(derpMap, measured, rest + [0]).0 == 0
  {
    hide Usable;
    assert (rest + [0])[..|rest|] == rest;
    ScanHolds(derpMap, measured, rest);
  }

  lemma WithZero(measured: Latencies) returns (rest: seq<int>)
    requires 0 in measured
    ensures forall id :: id in rest <==> id in measured && id != 0
    ensures Walk(measured, [0] + rest) && Walk(measured, rest + [0])
  {
    assert TotalOrder(IntLe);
    rest := ListOf(measured.Keys - {0}, IntLe);
  }

  lemma OrderShows(derpMap: Option<DerpMap>, measured: Latencies) returns (first: seq<int>, last: seq<int>)
    requires ZeroHides(derpMap, measured)
    ensures Walk(measured, first) && Walk(measured, last)
    ensures Scan(derpMap, measured, first).0 != 0 && Scan(derpMap, measured, last).0 == 0
  {
    hide Usable, Scan, Walk;
    var rest := WithZero(measured);
    var id :| id != 0 && Candidate(derpMap, measured, id);
    WalkCovers(measured, [0] + rest);
    WalkCovers(measured, rest + [0]);
    first, last := [0] + rest, rest + [0];
    ZeroFirst(derpMap, measured, rest, id);
    ZeroLast(derpMap, measured, rest);
  }

  lemma WalkCovers(measured: Latencies, order: seq<int>)
    requires Walk(measured, order)
    ensures forall id :: id in order <==> id in measured
  {
  }

  /** The search ends the same for every order of the walk if and only if region 0 hides no other candidate. */
  lemma OrderIndependentExactly(derpMap: Option<DerpMap>, measured: Latencies)
    ensures (forall a, b ::
               Walk(measured, a) && Walk(measured, b) ==> Scan(derpMap, measured, a) == Scan(derpMap, measured, b))
            <==> !ZeroHides(derpMap, measured)
  {
    hide Usable, Scan;
    if ZeroHides(derpMap, measured) {
      var first, last := OrderShows(derpMap, measured);
    } else {
      forall a, b | Walk(measured, a) && Walk(measured, b)
        ensures Scan(derpMap, measured, a) == Scan(derpMap, measured, b)
      {
        WholeScan(derpMap, measured, a);
        WholeScan(derpMap, measured, b);
      }
    }
  }

  // ----- The choice in the source's own numbers -----

  /** A region one can live in: it is in the map, not ruled out, and some node of it does more than STUN. */
  predicate Serves(derpMap: Option<DerpMap>, id: int) {
    match derpMap
    case Some(DerpMap(Some(regions), _)) =>
      id in regions && !regions[id].noMeasureNoHome && DerpNode(false) in regions[id].nodes
    case _ => false
  }

  lemma ServesIffUsable(derpMap: Option<DerpMap>, id: int)
    ensures Serves(derpMap, id) <==> Usable(derpMap, id)
  {
    if Usable(derpMap, id) {
      var region := derpMap.value.regions.value[id];
      var i :| 0 <= i < |region.nodes| && !region.nodes[i].stunOnly;
      assert region.nodes[i] == DerpNode(false);
    }
  }

  predicate Measured(derpMap: Option<DerpMap>, measured: Latencies, id: int) {
    Serves(derpMap, id) && id in measured && measured[id] > 0
  }

  /** The measured region that nothing beats: by latency, and among equals by id. */
  ghost predicate Fastest(derpMap: Option<DerpMap>, measured: Latencies, b: int) {
    && Measured(derpMap, measured, b)
    && forall id :: Measured(derpMap, measured, id) && id != b ==>
         measured[id] > measured[b] || (measured[id] == measured[b] && id > b)
  }

  /**
   * A measured home is left for the fastest region exactly if that is 10 ms faster and takes at
   * most two thirds of its time; any other home is left for it. Without measurements the home
   * stays while it serves, and is else the first region that does.
   */
  ghost predicate Decided(derpMap: Option<DerpMap>, current: int, measured: Latencies, home: int) {
    && (forall b :: Fastest(derpMap, measured, b) && b != 0 ==>
          if Measured(derpMap, measured, current) then
            if measured[current] - measured[b] >= 10_000_000 && measured[b] <= measured[current] / 3 * 2
            then home == b else home == current
          else home == b)
    && ((forall id :: Measured(derpMap, measured, id) ==> id == 0) ==>
          if Serves(derpMap, current) then home == current
          else if exists id :: Serves(derpMap, id) then
            Serves(derpMap, home) && forall id :: Serves(derpMap, id) ==> home <= id
          else home == 0)
  }

  lemma ChoiceDecides(derpMap: Option<DerpMap>, current: int, measured: Latencies, home: int)
    requires IsChoice(derpMap, current, measured, home)
    ensures Decided(derpMap, current, measured, home)
  {
    forall id ensures Serves(derpMap, id) <==> Usable(derpMap, id) {
      ServesIffUsable(derpMap, id);
    }
    hide Usable, Serves;
    assert forall id :: Measured(derpMap, measured, id) <==> Candidate(derpMap, measured, id);
    forall b | Fastest(derpMap, measured, b) && b != 0
      ensures HasCandidate(derpMap, measured)
      ensures forall best :: IsBest(derpMap, measured, best) ==> best == b
    {
      assert Candidate(derpMap, measured, b);
    }
    if forall id :: Measured(derpMap, measured, id) ==> id == 0 {
      assert !HasCandidate(derpMap, measured);
    }
  }

  method ChoosePreferredDERPMeasured(derpMap: Option<DerpMap>, current: int, measured: Latencies) returns (home: int)
    ensures !ZeroHides(derpMap, measured) ==> IsChoice(derpMap, current, measured, home)
    ensures !ZeroHides(derpMap, measured) ==> Decided(derpMap, current, measured, home)
  {
    hide ZeroHides, IsChoice, Decided;
    home := Choose(derpMap, current, measured);
    if !ZeroHides(derpMap, measured) {
      ChoiceDecides(derpMap, current, measured, home);
    }
  }

  method Choose(derpMap: Option<DerpMap>, current: int, measured: Latencies) returns (home: int)
    ensures !ZeroHides(derpMap, measured) ==> IsChoice(derpMap, current, measured, home)
  {
    hide Usable, IsFallback, Scan;
    var fallback := ChoosePreferredDERP(derpMap, current);
    NotUsable(derpMap);
    if derpMap.None? || |measured| == 0 {
      return fallback;
    }
    var found, _ := Search(derpMap, measured);
    var (bestID, best) := found;
    if bestID == 0 || bestID == current {
      if bestID != 0 {
        return bestID;
      }
      return fallback;
    }
    if current in measured && Usable(derpMap, current) && measured[current] > 0 {
      if measured[current] <= best {
        return current;
      }
      if measured[current] - best < TEN_MILLISECONDS || best > measured[current] / 3 * 2 {
        return current;
      }
    }
    return bestID;
  }

  lemma NotUsable(derpMap: Option<DerpMap>)
    ensures derpMap.None? ==> forall id :: !Usable(derpMap, id)
  {
  }

  /** The loop over the measurements, which are walked in an order the source does not control. */
  method Search(derpMap: Option<DerpMap>, measured: Latencies) returns (found: (int, int), ghost order: seq<int>)
    ensures forall id :: id in order <==> id in measured
    ensures found == Scan(derpMap, measured, order)
    ensures !ZeroHides(derpMap, measured) ==>
              if HasCandidate(derpMap, measured) then
                found.0 != 0 && IsBest(derpMap, measured, found.0) && found.1 == measured[found.0]
              else found.0 == 0
  {
    hide Usable;
    found, order := (0, 0), [];
    var todo := measured.Keys;
    while todo != {}
      invariant todo <= measured.Keys
      invariant forall id :: id in order <==> id in measured && id !in todo
      invariant found == Scan(derpMap, measured, order)
    {
      var id := Pick(todo);
      found := Better(derpMap, measured, id, found);
      assert (order + [id])[..|order|] == order;
      order := order + [id];
      todo := todo - {id};
    }
    if !ZeroHides(derpMap, measured) {
      WholeScan(derpMap, measured, order);
    }
  }

  /** The choice is determined by its inputs: no iteration order of any map shows in it. */
  lemma ChoiceIsUnique(derpMap: Option<DerpMap>, current: int, measured: Latencies, a: int, b: int)
    requires IsChoice(derpMap, current, measured, a) && IsChoice(derpMap, current, measured, b)
    ensures a == b
  {
    hide Usable;
  }

  /** Choosing again from the chosen home, with the same data, changes nothing. */
  lemma ChoiceIsStable(derpMap: Option<DerpMap>, current: int, measured: Latencies, home: int)
    requires IsChoice(derpMap, current, measured, home)
    ensures IsChoice(derpMap, home, measured, home)
  {
    hide Usable;
  }

  lemma ChoiceIsUsable(derpMap: Option<DerpMap>, current: int, measured: Latencies, home: int)
    requires IsChoice(derpMap, current, measured, home)
    ensures home == 0 || Usable(derpMap, home)
  {
    hide Usable;
  }

  /** With a measured region 0 the order does show: the two orders below end in different regions. */
  lemma RegionZeroDependsOnOrder()
    ensures var one := Region(false, [DerpNode(false)]);
            var derpMap := Some(DerpMap(Some(map[0 := one, 1 := one]), false));
            var measured := map[0 := 5, 1 := 10];
            && ZeroHides(derpMap, measured)
            && Scan(derpMap, measured, [0, 1]) == (1, 10) && Scan(derpMap, measured, [1, 0]) == (0, 5)
  {
    var one := Region(false, [DerpNode(false)]);
    var derpMap := Some(DerpMap(Some(map[0 := one, 1 := one]), false));
    var measured := map[0 := 5, 1 := 10];
    assert !one.nodes[0].stunOnly;
    assert Usable(derpMap, 0) && Usable(derpMap, 1);
    assert Candidate(derpMap, measured, 1);
    assert [0, 1][..1] == [0] && [1, 0][..1] == [1] && [0][..0] == [] && [1][..0] == [];
    assert Scan(derpMap, measured, [0]) == (0, 5);
    assert Scan(derpMap, measured, [1]) == (1, 10);
  }

  // ----- The client's relay state over whole runs -----

  /** One measurement of a report. */
  datatype Metric = Metric(region: int, latency: int)

  /** Regions a map update leaves out stay as they were. */
  function Merge(previous: Option<DerpMap>, update: DerpMap): DerpMap {
    if update.regions.None? && previous.Some? then update.(regions := previous.value.regions) else update
  }

  /** The measurements kept after a report, starting from `kept`. */
  function Record(derpMap: Option<DerpMap>, kept: Latencies, metrics: seq<Metric>): Latencies {
    if metrics == [] then kept
    else
      var before := Record(derpMap, kept, metrics[..|metrics| - 1]);
      var m := metrics[|metrics| - 1];
      if m.region == 0 || m.latency <= 0 || !Usable(derpMap, m.region) then before
      else before[m.region := m.latency]
  }

  /** A map without regions keeps the known ones; a map with regions replaces them. */
  lemma MergeMeaning(previous: Option<DerpMap>, update: DerpMap, id: int)
    ensures update.regions.Some? ==> Merge(previous, update) == update
    ensures update.regions.None? ==> (Serves(Some(Merge(previous, update)), id) <==> Serves(previous, id))
    ensures Merge(previous, update).omitDefaultRegions == update.omitDefaultRegions
  {
  }

  /** A metric that counts for region `id`. */
  predicate CountsFor(derpMap: Option<DerpMap>, m: Metric, id: int) {
    m.region == id && id != 0 && m.latency > 0 && Serves(derpMap, id)
  }

  /** Metric `i` is the last that counts for the region; -1 if none does. */
  predicate IsLast(derpMap: Option<DerpMap>, metrics: seq<Metric>, id: int, i: int) {
    && -1 <= i < |metrics| && (i >= 0 ==> CountsFor(derpMap, metrics[i], id))
    && forall j :: i < j < |metrics| ==> !CountsFor(derpMap, metrics[j], id)
  }

  /** The last metric of a region that counts is kept, and without one what was known before. */
  lemma {:induction false} RecordMeaning(derpMap: Option<DerpMap>, kept: Latencies, metrics: seq<Metric>,
                                         id: int, i: int)
    requires IsLast(derpMap, metrics, id, i)
    ensures var after := Record(derpMap, kept, metrics);
            if i >= 0 then id in after && after[id] == metrics[i].latency
            else (id in after <==> id in kept) && (id in kept ==> after[id] == kept[id])
  {
    hide Usable, Serves;
    if metrics != [] {
      var last := |metrics| - 1;
      ServesIffUsable(derpMap, metrics[last].region);
      if i != last {
        assert !CountsFor(derpMap, metrics[last], id);
        assert metrics[..last] + [metrics[last]] == metrics;
        RecordMeaning(derpMap, kept, metrics[..last], id, i);
      }
    }
  }

  class RelayState {
    const disableDERP: bool
    var derpMap: Option<DerpMap>
    var latency: Latencies
    var preferred: int
    var stopping: bool

    /** The home is 0 or usable, and measurements are kept for usable regions only. */
    ghost predicate Valid()
      reads this
    {
      && (preferred == 0 || Usable(derpMap, preferred))
      && (disableDERP ==> preferred == 0)
      && (forall id :: id in latency ==> id != 0 && Candidate(derpMap, latency, id))
    }

    constructor (disableDERP: bool)
      ensures Valid() && this.disableDERP == disableDERP && !stopping
      ensures derpMap == None && latency == map[] && preferred == 0
    {
      this.disableDERP := disableDERP;
      derpMap, latency, preferred, stopping := None, map[], 0, false;
    }

    /** The home the current map and measurements call for, coming from `home`. */
    method Rechoose(home: int) returns (chosen: int)
      requires forall id :: id in latency ==> id != 0
      ensures if disableDERP then chosen == 0 else IsChoice(derpMap, home, latency, chosen)
      ensures !disableDERP ==> Decided(derpMap, home, latency, chosen)
      ensures chosen == 0 || Usable(derpMap, chosen)
    {
      chosen := 0;
      if !disableDERP {
        chosen := ChoosePreferredDERPMeasured(derpMap, home, latency);
        ChoiceIsUsable(derpMap, home, latency, chosen);
      }
    }

    /** The relay part of a map response. */
    method ApplyDerpMap(update: DerpMap)
      requires Valid()
      modifies this`derpMap, this`latency, this`preferred
      ensures Valid()
      ensures derpMap == Some(Merge(old(derpMap), update))
      ensures if derpMap == old(derpMap) then unchanged(this)
              else
                && latency == (map id | id in old(latency) && Usable(derpMap, id) :: old(latency)[id])
                && (!disableDERP ==> IsChoice(derpMap, old(preferred), latency, preferred))
                && (!disableDERP ==> Decided(derpMap, old(preferred), latency, preferred))
    {
      hide Usable, IsChoice, Decided;
      var next := Merge(derpMap, update);
      if derpMap == Some(next) {
        return;
      }
      derpMap := Some(next);
      DropUnusable();
      preferred := Rechoose(preferred);
    }

    /** The loop that forgets measurements of regions the new map no longer offers. */
    method DropUnusable()
      requires forall id :: id in latency ==> id != 0 && latency[id] > 0
      modifies this`latency
      ensures latency == (map id | id in old(latency) && Usable(derpMap, id) :: old(latency)[id])
      ensures forall id :: id in latency ==> id != 0 && Candidate(derpMap, latency, id)
    {
      hide Usable;
      var todo := latency.Keys;
      while todo != {}
        invariant todo <= latency.Keys <= old(latency).Keys
        invariant forall id :: id in latency ==> latency[id] == old(latency)[id]
        invariant forall id :: id in old(latency) && id !in todo ==> (id in latency <==> Usable(derpMap, id))
        decreases todo
      {
        var id := Pick(todo);
        if !Usable(derpMap, id) {
          latency := latency - {id};
        }
        todo := todo - {id};
      }
      ghost var kept := map id | id in old(latency) && Usable(derpMap, id) :: old(latency)[id];
      assert latency.Keys == kept.Keys;
      assert latency == kept;
    }

    method OnDERPLatency(full: bool, metrics: seq<Metric>)
      requires Valid()
      modifies this`latency, this`preferred
      ensures Valid()
      ensures stopping ==> unchanged(this)
      ensures !stopping ==>
                && latency == Record(derpMap, if full then map[] else old(latency), metrics)
                && (!disableDERP ==> IsChoice(derpMap, old(preferred), latency, preferred))
                && (!disableDERP ==> Decided(derpMap, old(preferred), latency, preferred))
    {
      hide Usable, IsChoice, Decided;
      if stopping {
        return;
      }
      if full {
        latency := map[];
      }
      ghost var kept := latency;
      for i := 0 to |metrics|
        invariant latency == Record(derpMap, kept, metrics[..i]) && preferred == old(preferred)
        invariant forall id :: id in latency ==> id != 0 && Candidate(derpMap, latency, id)
      {
        assert metrics[..i + 1][..i] == metrics[..i];
        var m := metrics[i];
        if m.region == 0 || m.latency <= 0 || !Usable(derpMap, m.region) {
          continue;
        }
        latency := latency[m.region := m.latency];
      }
      assert metrics[..|metrics|] == metrics;
      preferred := Rechoose(preferred);
    }

    method BeginStopping()
      requires Valid()
      modifies this`stopping
      ensures Valid() && stopping
    {
      stopping := true;
    }
  }

  // ----- How much the latencies must swing for the home to move -----

  lemma LeavingHome(derpMap: Option<DerpMap>, c: int, measured: Latencies, b: int)
    requires IsChoice(derpMap, c, measured, b) && b != c && Candidate(derpMap, measured, c)
    ensures IsBest(derpMap, measured, b)
    ensures measured[c] - measured[b] >= TEN_MILLISECONDS && 3 * measured[b] <= 2 * measured[c]
  {
    hide Usable;
  }

  function Abs(x: int): nat {
    if x < 0 then -x else x
  }

  /** Moving from `c` to `b` and later back, both measured, takes a swing of 20 ms between the two. */
  lemma MovingBack(derpMap: Option<DerpMap>, derpMap': Option<DerpMap>, c: int, b: int, first: Latencies,
                   second: Latencies)
    requires b != c
    requires IsChoice(derpMap, c, first, b) && Candidate(derpMap, first, c)
    requires IsChoice(derpMap', b, second, c) && Candidate(derpMap', second, b)
    ensures c in second && b in first
    ensures Abs(second[c] - first[c]) + Abs(second[b] - first[b]) >= 2 * TEN_MILLISECONDS
  {
    LeavingHome(derpMap, c, first, b);
    LeavingHome(derpMap', b, second, c);
  }

  // A longer run: rounds of measurements of one fixed list of regions, all usable throughout.

  predicate HasAll(measured: Latencies, ids: seq<int>) {
    forall k :: 0 <= k < |ids| ==> ids[k] in measured
  }

  /** Exactly the regions `ids` count. Region 0 is not among them: `RelayState` keeps no measurement of it. */
  ghost predicate Measures(derpMap: Option<DerpMap>, ids: seq<int>, measured: Latencies) {
    && (forall id :: id in measured ==> id in ids)
    && (forall id :: id in ids ==> id != 0 && Candidate(derpMap, measured, id))
  }

  /** How far apart two rounds of measurements are, over all regions. */
  function Distance(ids: seq<int>, a: Latencies, b: Latencies): nat
    requires HasAll(a, ids) && HasAll(b, ids)
  {
    if ids == [] then 0 else Abs(a[ids[0]] - b[ids[0]]) + Distance(ids[1..], a, b)
  }

  lemma {:induction false} DistanceOfOne(ids: seq<int>, a: Latencies, b: Latencies, x: int)
    requires x in ids && HasAll(a, ids) && HasAll(b, ids)
    ensures Abs(a[x] - b[x]) <= Distance(ids, a, b)
  {
    if x != ids[0] {
      DistanceOfOne(ids[1..], a, b, x);
    }
  }

  lemma {:induction false} DistanceOfTwo(ids: seq<int>, a: Latencies, b: Latencies, x: int, y: int)
    requires x in ids && y in ids && x != y && HasAll(a, ids) && HasAll(b, ids)
    ensures Abs(a[x] - b[x]) + Abs(a[y] - b[y]) <= Distance(ids, a, b)
  {
    if x == ids[0] {
      DistanceOfOne(ids[1..], a, b, y);
    } else if y == ids[0] {
      DistanceOfOne(ids[1..], a, b, x);
    } else {
      DistanceOfTwo(ids[1..], a, b, x, y);
    }
  }

  lemma {:induction false} DistanceTriangle(ids: seq<int>, a: Latencies, b: Latencies, c: Latencies)
    requires HasAll(a, ids) && HasAll(b, ids) && HasAll(c, ids)
    ensures Distance(ids, a, c) <= Distance(ids, a, b) + Distance(ids, b, c)
  {
    if ids != [] {
      DistanceTriangle(ids[1..], a, b, c);
    }
  }

  /** A run: `homes[i + 1]` is chosen from `homes[i]` on the measurements of round `i`. */
  ghost predicate Run(derpMap: Option<DerpMap>, ids: seq<int>, rounds: seq<Latencies>, homes: seq<int>) {
    && |homes| == |rounds| + 1
    && (forall i :: 0 <= i < |rounds| ==> HasAll(rounds[i], ids) && Measures(derpMap, ids, rounds[i]))
    && (forall i :: 0 <= i < |rounds| ==> IsChoice(derpMap, homes[i], rounds[i], homes[i + 1]))
  }

  function Moves(homes: seq<int>, n: nat): nat
    requires n < |homes|
  {
    if n == 0 then 0 else Moves(homes, n - 1) + if homes[n] != homes[n - 1] then 1 else 0
  }

  /** The total movement of the latencies up to round `n`. */
  function Swing(ids: seq<int>, rounds: seq<Latencies>, n: nat): nat
    requires n < |rounds|
    requires forall i :: 0 <= i < |rounds| ==> HasAll(rounds[i], ids)
  {
    if n == 0 then 0 else Swing(ids, rounds, n - 1) + Distance(ids, rounds[n - 1], rounds[n])
  }

  lemma {:induction false} SwingSpans(ids: seq<int>, rounds: seq<Latencies>, m: nat, n: nat)
    requires m <= n < |rounds|
    requires forall i :: 0 <= i < |rounds| ==> HasAll(rounds[i], ids)
    ensures Distance(ids, rounds[m], rounds[n]) <= Swing(ids, rounds, n) - Swing(ids, rounds, m)
    decreases n
  {
    if m < n {
      SwingSpans(ids, rounds, m, n - 1);
      DistanceTriangle(ids, rounds[m], rounds[n - 1], rounds[n]);
    } else {
      DistanceSelf(ids, rounds[m]);
    }
  }

  lemma {:induction false} DistanceSelf(ids: seq<int>, a: Latencies)
    requires HasAll(a, ids)
    ensures Distance(ids, a, a) == 0
  {
    if ids != [] {
      DistanceSelf(ids[1..], a);
    }
  }

  /** A move ends at the fastest region of its round, and starts 10 ms behind it if it was measured. */
  lemma MoveEndsAtBest(derpMap: Option<DerpMap>, ids: seq<int>, measured: Latencies, from: int, to: int)
    requires Measures(derpMap, ids, measured) && IsChoice(derpMap, from, measured, to) && from != to && ids != []
    ensures to in ids && forall id :: id in ids ==> measured[to] <= measured[id]
    ensures from in ids ==> measured[from] - measured[to] >= TEN_MILLISECONDS
  {
    hide Usable, Sticks;
    assert Candidate(derpMap, measured, ids[0]);
    if from in ids {
      LeavingHome(derpMap, from, measured, to);
    }
  }

  /** The latest move of a run, and what the moves before it have cost. */
  lemma {:induction false} MovesCost(derpMap: Option<DerpMap>, ids: seq<int>, rounds: seq<Latencies>, homes: seq<int>,
                                     n: nat)
    returns (last: nat)
    requires Run(derpMap, ids, rounds, homes) && ids != [] && 0 < n < |homes|
    ensures last < n
    ensures Moves(homes, n) > 0 ==>
              && homes[last] != homes[last + 1] && homes[last + 1] == homes[n]
              && TEN_MILLISECONDS * (Moves(homes, n) - 1) <= Swing(ids, rounds, last)
  {
    hide IsChoice, Distance;
    var i := n - 1;
    last := i;
    assert Moves(homes, n) == Moves(homes, i) + if homes[n] != homes[i] then 1 else 0;
    assert Moves(homes, 0) == 0;
    if n > 1 {
      var previous := MovesCost(derpMap, ids, rounds, homes, n - 1);
      if homes[i] == homes[n] {
        last := previous;
      } else if Moves(homes, i) > 0 {
        MoveEndsAtBest(derpMap, ids, rounds[previous], homes[previous], homes[i]);
        MoveEndsAtBest(derpMap, ids, rounds[i], homes[i], homes[n]);
        DistanceOfTwo(ids, rounds[previous], rounds[i], homes[i], homes[n]);
        SwingSpans(ids, rounds, previous, i);
      }
    }
  }

  /**
   * The stickiness at work over any run: however the latencies of a fixed set of regions vary,
   * every move of the home after the first has cost 10 ms of their total movement.
   */
  lemma FlapBound(derpMap: Option<DerpMap>, ids: seq<int>, rounds: seq<Latencies>, homes: seq<int>)
    requires Run(derpMap, ids, rounds, homes) && ids != [] && rounds != []
    ensures TEN_MILLISECONDS * (Moves(homes, |rounds|) - 1) <= Swing(ids, rounds, |rounds| - 1)
  {
    hide IsChoice, Distance;
    var last := MovesCost(derpMap, ids, rounds, homes, |rounds|);
    SwingSpans(ids, rounds, last, |rounds| - 1);
  }
}
