/**
 * One whole reconcile pass (`reconcilePeers` in `map.go`) with nobody else at work: what it does to
 * every key, what it leaves when no call fails, and when a second pass finds nothing to do.
 */
module Controller {
  import opened Nodes
  import opened Options
  import opened PeerIndex
  import opened Publication
  import opened Reconciler
  import Sets

  // ----- The outcome of a pass, key by key -----

  /** What the pass makes of `k` is what the step for `k` alone makes of it, from the state at the start. */
  ghost predicate Outcome(c: Config, s: State, desired: Wants, fails: NodeKey -> bool, s': State, k: NodeKey) {
    if k in desired then SameKey(Published(c, s, k, desired[k], Lookup(s.applied, k), fails(k)), s', k)
    else if k in s.applied then SameKey(Dropped(s, k, s.applied[k], fails(k)), s', k)
    else SameKey(s.(local := s.local - {k}), s', k)
  }

  ghost predicate Reconciled(c: Config, s: State, desired: Wants, fails: NodeKey -> bool, s': State) {
    && s'.nodes == s.nodes && s'.confirmed == s.confirmed && s'.preferredDERP == s.preferredDERP
    && (forall k {:trigger Outcome(c, s, desired, fails, s', k)} :: Outcome(c, s, desired, fails, s', k))
  }

  /** The key is published as wanted already, and nothing is wrong with it. */
  predicate Calm(c: Config, s: State, k: NodeKey, w: Wanted) {
    && k in s.applied && s.applied[k] == Record(c, w)
    && k in s.device && SpecsEqual(s.device[k], SpecFor(c, w)) && StillOwned(s, k, s.applied[k])
    && s.LocalOf(k).applied && !s.LocalOf(k).failed
  }

  /** A pass over these wanted peers has nothing to do. */
  ghost predicate Quiet(c: Config, s: State, desired: Wants) {
    && (forall k :: k in s.applied ==> k in desired)
    && (forall k :: k in desired ==> Calm(c, s, k, desired[k]))
  }

  /** Another controller holds the key; this can be seen before the pass. */
  predicate Taken(c: Config, s: State, k: NodeKey) {
    Conflict(c, s, k, Lookup(s.applied, k))
  }

  lemma DoneIsCalm(c: Config, s: State, k: NodeKey, w: Wanted)
    requires !Taken(c, s, k)
    ensures var s' := Published(c, s, k, w, Lookup(s.applied, k), false);
            && Calm(c, s', k, w)
            && s'.LocalOf(k).path == s.LocalOf(k).path && s'.LocalOf(k).direct == s.LocalOf(k).direct
            && s'.LocalOf(k).recovering == s.LocalOf(k).recovering
  {
    hide EndpointFor;
  }

  lemma TakenIsLeft(c: Config, s: State, k: NodeKey, w: Wanted, fails: bool)
    requires Taken(c, s, k)
    ensures var s' := Published(c, s, k, w, Lookup(s.applied, k), fails);
            && s'.device == s.device && k !in s'.applied
            && k in s'.local && s'.local[k].failed && (k in s.applied ==> !s'.local[k].applied)
  {
  }

  lemma CalmCarries(c: Config, s: State, s': State, k: NodeKey, w: Wanted)
    requires Calm(c, s, k, w) && SameKey(s, s', k)
    ensures Calm(c, s', k, w) && s'.LocalOf(k) == s.LocalOf(k)
  {
    hide SpecFor, Record, SpecsEqual;
  }

  /** After a pass without failures, only wanted peers are published. */
  lemma OnlyWantedStay(c: Config, s: State, desired: Wants, fails: NodeKey -> bool, s': State, k: NodeKey)
    requires Reconciled(c, s, desired, fails, s') && !fails(k) && k in s'.applied
    ensures k in desired
  {
    hide Published;
    assert Outcome(c, s, desired, fails, s', k);
  }

  /** A wanted peer that nobody else holds is on the device exactly as wanted; others are left alone. */
  lemma WantedArePublished(c: Config, s: State, desired: Wants, fails: NodeKey -> bool, s': State, k: NodeKey)
    requires Reconciled(c, s, desired, fails, s') && !fails(k) && k in desired
    ensures !Taken(c, s, k) ==> Calm(c, s', k, desired[k])
    ensures Taken(c, s, k) ==> k !in s'.applied && k in s'.device && s'.device[k] == s.device[k] && s'.LocalOf(k).failed
  {
    hide Published, Calm, Taken;
    assert Outcome(c, s, desired, fails, s', k);
    var p := Published(c, s, k, desired[k], Lookup(s.applied, k), false);
    if Taken(c, s, k) {
      TakenIsLeft(c, s, k, desired[k], false);
      TakenIsThere(c, s, k);
    } else {
      DoneIsCalm(c, s, k, desired[k]);
      CalmCarries(c, p, s', k, desired[k]);
    }
  }

  lemma TakenIsThere(c: Config, s: State, k: NodeKey)
    requires Taken(c, s, k)
    ensures k in s.device
  {
  }

  /** Every published key belongs to a node that may be published. */
  lemma PublishedAreEligible(c: Config, s: State, desired: Wants, fails: NodeKey -> bool, s': State, k: NodeKey)
    requires Desires(c, s, desired) && Reconciled(c, s, desired, fails, s') && !fails(k) && k in s'.applied
    ensures exists i :: i in s.nodes && s.nodes[i].key == k && Eligible(c, s, s.nodes[i])
  {
    hide Reconciled, Eligible;
    OnlyWantedStay(c, s, desired, fails, s', k);
    var i :| i in s.nodes && IsChoice(c, s, k, desired[k], i);
  }

  // ----- The outcome, told from the nodes -----

  lemma ConflictMeaning(c: Config, s: State, k: NodeKey)
    ensures Conflict(c, s, k, Lookup(s.applied, k)) <==> HeldByOther(c, s, k)
  {
  }

  /** The step for a key that nobody else holds makes it stand for the node. */
  lemma DoneMeaning(c: Config, s: State, k: NodeKey, n: Node)
    requires n.key == k && !HeldByOther(c, s, k)
    ensures StandsFor(c, s, Published(c, s, k, WantedOf(c, s, n), Lookup(s.applied, k), false), k, n)
  {
    hide SpecFor, ConfigFor, SpecIs, ConfigIs, Conflict, HeldByOther;
    ConflictMeaning(c, s, k);
    EligibleMeaning(c, s, n);
    var w := WantedOf(c, s, n);
    SpecMeaning(c, s, n, SpecFor(c, w));
    if k in s.device && SpecsEqual(s.device[k], SpecFor(c, w)) {
      SpecMeaning(c, s, n, s.device[k]);
    }
    ConfigMeaning(c, s, n);
  }

  lemma HeldMeaning(c: Config, s: State, k: NodeKey, w: Wanted)
    requires Agree(s, {}) && HeldByOther(c, s, k)
    ensures LeftAlone(s, Published(c, s, k, w, Lookup(s.applied, k), false), k)
  {
    hide SpecFor, ConfigFor;
    ConflictMeaning(c, s, k);
  }

  lemma DroppedMeaning(s: State, k: NodeKey)
    requires k in s.applied
    ensures Withdrawn(s, Dropped(s, k, s.applied[k], false), k)
  {
  }

  /** These descriptions depend on nothing but the key. */
  lemma MeaningCarries(c: Config, s: State, p: State, s': State, k: NodeKey, n: Node)
    requires SameKey(p, s', k)
    ensures StandsFor(c, s, p, k, n) ==> StandsFor(c, s, s', k, n)
    ensures LeftAlone(s, p, k) ==> LeftAlone(s, s', k)
    ensures Withdrawn(s, p, k) ==> Withdrawn(s, s', k)
  {
    hide SpecIs, ConfigIs;
  }

  /** The outcome of a step for the key that the device does not refuse. */
  lemma OneKeyMeaning(c: Config, s: State, desired: Wants, s': State, k: NodeKey)
    requires Desires(c, s, desired) && Agree(s, {}) && Outcome(c, s, desired, Never, s', k)
    ensures KeyMeaning(c, s, s', k)
  {
    hide Published, Dropped, StandsFor, LeftAlone, Withdrawn, HeldByOther, Eligible, MayPublish, WantedOf;
    if k in desired {
      var i :| i in s.nodes && IsChoice(c, s, k, desired[k], i);
      var n := s.nodes[i];
      EligibleMeaning(c, s, n);
      var p := Published(c, s, k, desired[k], Lookup(s.applied, k), false);
      if HeldByOther(c, s, k) {
        HeldMeaning(c, s, k, desired[k]);
      } else {
        DoneMeaning(c, s, k, n);
      }
      MeaningCarries(c, s, p, s', k, n);
    } else {
      NotWanted(c, s, desired, k);
      if k in s.applied {
        DroppedMeaning(s, k);
        MeaningCarries(c, s, Dropped(s, k, s.applied[k], false), s', k, NO_NODE);
      } else {
        UntouchedMeaning(s, s', k);
      }
    }
  }

  /** For every key the device does not refuse, a pass does what the nodes, the options and the paths call for. */
  lemma PassMeaning(c: Config, s: State, desired: Wants, fails: NodeKey -> bool, s': State, k: NodeKey)
    requires Desires(c, s, desired) && Reconciled(c, s, desired, fails, s') && Agree(s, {}) && !fails(k)
    ensures KeyMeaning(c, s, s', k)
  {
    hide Published, Dropped, KeyMeaning;
    assert Outcome(c, s, desired, fails, s', k);
    OneKeyMeaning(c, s, desired, s', k);
  }

  lemma RefusedMeaning(c: Config, s: State, k: NodeKey, w: Wanted)
    requires Agree(s, {})
    ensures var owned := Lookup(s.applied, k);
            var p := Published(c, s, k, w, owned, true);
            p == Published(c, s, k, w, owned, false) || Refused(s, p, k)
    ensures k in s.applied ==>
              var p := Dropped(s, k, s.applied[k], true);
              p == Dropped(s, k, s.applied[k], false) || Refused(s, p, k)
  {
    hide SpecFor, ConfigFor, SpecsEqual;
  }

  lemma RefusedCarries(s: State, p: State, s': State, k: NodeKey)
    requires SameKey(p, s', k) && Refused(s, p, k)
    ensures Refused(s, s', k)
  {
  }

  /** For a key the device may refuse, a pass does the same or leaves things as they were, with an error. */
  lemma PassMeaningRefused(c: Config, s: State, desired: Wants, fails: NodeKey -> bool, s': State, k: NodeKey)
    requires Desires(c, s, desired) && Reconciled(c, s, desired, fails, s') && Agree(s, {}) && fails(k)
    ensures KeyMeaning(c, s, s', k) || Refused(s, s', k)
  {
    hide Published, Dropped, Refused, KeyMeaning;
    assert Outcome(c, s, desired, fails, s', k);
    if k in desired {
      var owned := Lookup(s.applied, k);
      RefusedMeaning(c, s, k, desired[k]);
      if Published(c, s, k, desired[k], owned, true) == Published(c, s, k, desired[k], owned, false) {
        OneKeyMeaning(c, s, desired, s', k);
      } else {
        RefusedCarries(s, Published(c, s, k, desired[k], owned, true), s', k);
      }
    } else if k in s.applied {
      RefusedMeaning(c, s, k, WantedOf(c, s, NO_NODE));
      if Dropped(s, k, s.applied[k], true) == Dropped(s, k, s.applied[k], false) {
        OneKeyMeaning(c, s, desired, s', k);
      } else {
        RefusedCarries(s, Dropped(s, k, s.applied[k], true), s', k);
      }
    } else {
      OneKeyMeaning(c, s, desired, s', k);
    }
  }

  const NO_NODE := Node(0, "", "", 0, 0, [], [], [], 0, 0, false, false, false, None, None, None, 0)

  lemma NotWanted(c: Config, s: State, desired: Wants, k: NodeKey)
    requires Desires(c, s, desired) && k !in desired
    ensures !WantsKey(c, s, k)
  {
    hide Eligible, MayPublish;
    forall i | i in s.nodes && s.nodes[i].key == k ensures !MayPublish(c, s, s.nodes[i]) {
      EligibleMeaning(c, s, s.nodes[i]);
    }
  }

  lemma UntouchedMeaning(s: State, s': State, k: NodeKey)
    requires Agree(s, {}) && k !in s.applied && SameKey(s.(local := s.local - {k}), s', k)
    ensures Withdrawn(s, s', k)
  {
  }

  // ----- A second pass -----

  /** The two choices lead to the same record and, but for the order of prefixes, the same spec. */
  predicate SamePublication(c: Config, a: Wanted, b: Wanted) {
    a.id == b.id && SpecsEqual(SpecFor(c, a), SpecFor(c, b))
  }

  predicate Never(k: NodeKey) {
    false
  }

  /** `s'` is left by a pass from `s` in which no call failed and no wanted key was taken. */
  ghost predicate CleanPass(c: Config, s: State, desired: Wants, s': State) {
    && Desires(c, s, desired) && Reconciled(c, s, desired, Never, s')
    && (forall k :: k in desired ==> !Taken(c, s, k))
  }

  lemma KeepsPaths(c: Config, s: State, desired: Wants, s': State, k: NodeKey)
    requires CleanPass(c, s, desired, s') && k in desired
    ensures Calm(c, s', k, desired[k])
    ensures s'.LocalOf(k).path == s.LocalOf(k).path && s'.LocalOf(k).direct == s.LocalOf(k).direct
    ensures s'.LocalOf(k).recovering == s.LocalOf(k).recovering
  {
    hide Published, Calm, Taken, Desires;
    assert Outcome(c, s, desired, Never, s', k);
    DoneIsCalm(c, s, k, desired[k]);
    CalmCarries(c, Published(c, s, k, desired[k], Lookup(s.applied, k), false), s', k, desired[k]);
  }

  /** What is wanted does not change with the pass. */
  lemma SameWants(c: Config, s: State, desired: Wants, s': State, n: Node)
    requires CleanPass(c, s, desired, s') && n.key in desired
    ensures WantedOf(c, s', n) == WantedOf(c, s, n) && (Eligible(c, s', n) <==> Eligible(c, s, n))
  {
    hide Calm, Desires, Outcome;
    KeepsPaths(c, s, desired, s', n.key);
  }

  lemma SameKeys(c: Config, s: State, desired: Wants, s': State, again: Wants)
    requires CleanPass(c, s, desired, s') && Desires(c, s', again)
    ensures again.Keys == desired.Keys
  {
    hide Outcome, Taken, WantedOf;
    forall k | k in desired ensures k in again {
      var i :| i in s.nodes && IsChoice(c, s, k, desired[k], i);
      assert Eligible(c, s', s'.nodes[i]);
    }
    forall k | k in again ensures k in desired {
      var i :| i in s'.nodes && IsChoice(c, s', k, again[k], i);
      assert Eligible(c, s, s.nodes[i]);
    }
  }

  lemma CalmAgain(c: Config, s: State, k: NodeKey, w: Wanted, w': Wanted)
    requires Calm(c, s, k, w)
    ensures Calm(c, s, k, w') <==> SamePublication(c, w, w')
  {
    hide EndpointFor;
  }

  /** The second pass has nothing to do exactly if it chooses nodes that publish the same. */
  lemma SecondPass(c: Config, s: State, desired: Wants, s': State, again: Wants)
    requires CleanPass(c, s, desired, s') && Desires(c, s', again)
    ensures again.Keys == desired.Keys
    ensures Quiet(c, s', again) <==> forall k :: k in desired ==> SamePublication(c, desired[k], again[k])
  {
    hide Calm, SamePublication, Desires, Outcome, Taken;
    SameKeys(c, s, desired, s', again);
    forall k | k in s'.applied ensures k in again {
      OnlyWantedStay(c, s, desired, Never, s', k);
    }
    forall k | k in desired ensures Calm(c, s', k, again[k]) <==> SamePublication(c, desired[k], again[k]) {
      KeepsPaths(c, s, desired, s', k);
      CalmAgain(c, s', k, desired[k], again[k]);
    }
  }

  /** No two eligible nodes with one key would publish differently. */
  ghost predicate Unambiguous(c: Config, s: State) {
    forall i, j ::
      (i in s.nodes && j in s.nodes && s.nodes[i].key == s.nodes[j].key
       && Eligible(c, s, s.nodes[i]) && Eligible(c, s, s.nodes[j])) ==>
        SamePublication(c, WantedOf(c, s, s.nodes[i]), WantedOf(c, s, s.nodes[j]))
  }

  /** Without ambiguity every second pass is quiet, whichever nodes the two passes choose. */
  lemma ReconcileIsIdempotent(c: Config, s: State, desired: Wants, s': State, again: Wants)
    requires CleanPass(c, s, desired, s') && Desires(c, s', again) && Unambiguous(c, s)
    ensures Quiet(c, s', again)
  {
    hide Quiet, SamePublication, Outcome, Taken, Eligible, WantedOf;
    SecondPass(c, s, desired, s', again);
    forall k | k in desired ensures SamePublication(c, desired[k], again[k]) {
      var i :| i in s.nodes && IsChoice(c, s, k, desired[k], i);
      var j :| j in s'.nodes && IsChoice(c, s', k, again[k], j);
      SameWants(c, s, desired, s', s.nodes[j]);
    }
  }

  lemma Choosable(c: Config, s: State, desired: Wants, i: int)
    requires Desires(c, s, desired) && i in s.nodes && Eligible(c, s, s.nodes[i])
    ensures Desires(c, s, desired[s.nodes[i].key := WantedOf(c, s, s.nodes[i])])
  {
    hide Eligible, WantedOf;
    var chosen := desired[s.nodes[i].key := WantedOf(c, s, s.nodes[i])];
    forall k | k in chosen ensures exists j :: j in s.nodes && IsChoice(c, s, k, chosen[k], j) {
      if k == s.nodes[i].key {
        assert IsChoice(c, s, k, chosen[k], i);
      }
    }
  }

  /** A second pass that chooses a node which publishes otherwise than the first pass did is not quiet. */
  lemma OtherChoice(c: Config, s: State, desired: Wants, s': State, i: int)
    requires CleanPass(c, s, desired, s') && i in s.nodes && Eligible(c, s, s.nodes[i])
    requires !SamePublication(c, desired[s.nodes[i].key], WantedOf(c, s, s.nodes[i]))
    ensures exists again :: Desires(c, s', again) && !Quiet(c, s', again)
  {
    hide Quiet, SamePublication, Outcome, Taken;
    var k := s.nodes[i].key;
    SameWants(c, s, desired, s', s.nodes[i]);
    StillDesired(c, s, desired, s');
    var again := desired[k := WantedOf(c, s', s.nodes[i])];
    Choosable(c, s', desired, i);
    SecondPass(c, s, desired, s', again);
    assert k in desired && !SamePublication(c, desired[k], again[k]);
  }

  lemma SamePublicationTwice(c: Config, w: Wanted, a: Wanted, b: Wanted)
    requires SamePublication(c, w, a) && SamePublication(c, w, b)
    ensures SamePublication(c, a, b)
  {
    hide SpecFor;
  }

  /** With ambiguity some second pass is not quiet, whatever the first one chose. */
  lemma AmbiguityIsUnstable(c: Config, s: State, desired: Wants, s': State, i: int, j: int)
    requires CleanPass(c, s, desired, s') && i in s.nodes && j in s.nodes && s.nodes[i].key == s.nodes[j].key
    requires Eligible(c, s, s.nodes[i]) && Eligible(c, s, s.nodes[j])
    requires !SamePublication(c, WantedOf(c, s, s.nodes[i]), WantedOf(c, s, s.nodes[j]))
    ensures exists again :: Desires(c, s', again) && !Quiet(c, s', again)
  {
    hide Quiet, SamePublication, Reconciled, Eligible, WantedOf, Taken;
    var chosen := desired[s.nodes[i].key];
    if !SamePublication(c, chosen, WantedOf(c, s, s.nodes[i])) {
      OtherChoice(c, s, desired, s', i);
    } else if !SamePublication(c, chosen, WantedOf(c, s, s.nodes[j])) {
      OtherChoice(c, s, desired, s', j);
    } else {
      SamePublicationTwice(c, chosen, WantedOf(c, s, s.nodes[i]), WantedOf(c, s, s.nodes[j]));
    }
  }

  /** After a clean pass, every possible second pass is quiet if and only if there was no ambiguity to begin with. */
  lemma IdempotentExactly(c: Config, s: State, desired: Wants, s': State)
    requires CleanPass(c, s, desired, s')
    ensures Unambiguous(c, s) <==> forall again :: Desires(c, s', again) ==> Quiet(c, s', again)
  {
    hide Quiet, SamePublication, CleanPass, Desires, Eligible, WantedOf;
    if Unambiguous(c, s) {
      forall again | Desires(c, s', again) ensures Quiet(c, s', again) {
        ReconcileIsIdempotent(c, s, desired, s', again);
      }
    } else {
      var i, j :| i in s.nodes && j in s.nodes && s.nodes[i].key == s.nodes[j].key
        && Eligible(c, s, s.nodes[i]) && Eligible(c, s, s.nodes[j])
        && !SamePublication(c, WantedOf(c, s, s.nodes[i]), WantedOf(c, s, s.nodes[j]));
      AmbiguityIsUnstable(c, s, desired, s', i, j);
    }
  }

  lemma StillDesired(c: Config, s: State, desired: Wants, s': State)
    requires CleanPass(c, s, desired, s')
    ensures Desires(c, s', desired)
  {
    hide Eligible, WantedOf, Outcome, Taken;
    forall k | k in desired ensures exists i :: i in s'.nodes && IsChoice(c, s', k, desired[k], i) {
      var i :| i in s.nodes && IsChoice(c, s, k, desired[k], i);
      SameWants(c, s, desired, s', s.nodes[i]);
      assert IsChoice(c, s', k, desired[k], i);
    }
    forall i | i in s'.nodes && Eligible(c, s', s'.nodes[i]) ensures s'.nodes[i].key in desired {
      SameEligible(c, s, s', s'.nodes[i]);
    }
  }

  lemma SameEligible(c: Config, s: State, s': State, n: Node)
    requires s'.confirmed == s.confirmed
    ensures Eligible(c, s', n) <==> Eligible(c, s, n)
  {
  }

  /** A quiet pass changes nothing on the device and nothing on record. */
  lemma QuietPassChangesNothing(c: Config, s: State, desired: Wants, fails: NodeKey -> bool, s': State)
    requires Quiet(c, s, desired) && Reconciled(c, s, desired, fails, s')
    ensures s'.device == s.device && s'.applied == s.applied
  {
    hide Quiet, Reconciled;
    forall k ensures SameEntry(s, s', k) {
      QuietKey(c, s, desired, fails, s', k);
    }
    assert forall k :: k in s'.device ==> SameEntry(s, s', k);
    assert forall k :: k in s'.applied ==> SameEntry(s, s', k);
    assert forall k :: k in s.device ==> SameEntry(s, s', k);
    assert forall k :: k in s.applied ==> SameEntry(s, s', k);
  }

  /** The device and the record have the same for `k`. */
  ghost predicate SameEntry(s: State, s': State, k: NodeKey) {
    && (k in s'.device <==> k in s.device) && (k in s.device ==> s'.device[k] == s.device[k])
    && Lookup(s'.applied, k) == Lookup(s.applied, k)
  }

  lemma QuietKey(c: Config, s: State, desired: Wants, fails: NodeKey -> bool, s': State, k: NodeKey)
    requires Quiet(c, s, desired) && Reconciled(c, s, desired, fails, s')
    ensures SameEntry(s, s', k)
  {
    hide Published, Calm, Dropped;
    assert Outcome(c, s, desired, fails, s', k);
    if k in desired {
      CalmStays(c, s, k, desired[k], fails(k));
    }
  }

  lemma CalmStays(c: Config, s: State, k: NodeKey, w: Wanted, fails: bool)
    requires Calm(c, s, k, w)
    ensures var s' := Published(c, s, k, w, Lookup(s.applied, k), fails);
            && s' == s.(bound := s'.bound) && !Changes(c, s, k, w, Lookup(s.applied, k), fails)
  {
    hide SpecFor, SpecsEqual, ConfigFor;
    assert s.local[k := s.local[k]] == s.local;
    assert s.applied[k := s.applied[k]] == s.applied;
  }

  function TwinNode(id: int, stableId: string): Node {
    Node(id, stableId, "", 7, 0, [], [], [], 0, 0, false, false, false, None, None, None, 0)
  }

  /** Two nodes with one key, and nothing published. */
  function Twins(): State {
    State(map[1 := TwinNode(1, "a"), 2 := TwinNode(2, "b")], {}, 0, map[], map[], map[], map[], 0)
  }

  /** With two such nodes a pass can be followed by another that is not quiet. */
  lemma TwinsAreUnstable(c: Config)
    requires !c.confirmPeers
    ensures exists desired, s', again ::
              CleanPass(c, Twins(), desired, s') && Desires(c, s', again) && !Quiet(c, s', again)
  {
    hide EndpointFor, Calm, Quiet, SpecFor;
    var s, n := Twins(), TwinNode(1, "a");
    var desired := map[7 := WantedOf(c, s, n)];
    var s' := Published(c, s, 7, desired[7], None, false);
    assert IsChoice(c, s, 7, desired[7], 1);
    assert Desires(c, s, desired);
    TwinsPass(c, desired, s');
    AmbiguityIsUnstable(c, s, desired, s', 1, 2);
    var again :| Desires(c, s', again) && !Quiet(c, s', again);
  }

  lemma TwinsPass(c: Config, desired: Wants, s': State)
    requires desired.Keys == {7} && Desires(c, Twins(), desired)
    requires s' == Published(c, Twins(), 7, desired[7], None, false)
    ensures CleanPass(c, Twins(), desired, s')
  {
    hide SpecFor, Desires;
    var s := Twins();
    forall k ensures Outcome(c, s, desired, Never, s', k) {
    }
  }

  // ----- The pass part of the way through -----

  ghost predicate KeyDone(c: Config, s0: State, desired: Wants, fails: NodeKey -> bool, s: State, k: NodeKey) {
    if k in desired then SameKey(Published(c, s0, k, desired[k], Lookup(s0.applied, k), fails(k)), s, k)
    else k in s0.applied && SameKey(Dropped(s0, k, s0.applied[k], fails(k)), s, k)
  }

  /** The keys in `visited` are done and the others are as at the start. */
  ghost predicate Partway(c: Config, s0: State, desired: Wants, fails: NodeKey -> bool, s: State,
                          visited: set<NodeKey>)
  {
    && s.nodes == s0.nodes && s.confirmed == s0.confirmed && s.preferredDERP == s0.preferredDERP
    && (forall k :: k in visited ==> KeyDone(c, s0, desired, fails, s, k))
    && (forall k :: k !in visited ==> SameKey(s0, s, k))
  }

  lemma ErrorLocal(s0: State, s: State, k: NodeKey)
    requires SameKey(s0, s, k)
    ensures SameKey(WithError(s0, k), WithError(s, k), k)
  {
  }

  lemma ForgetLocal(s0: State, s: State, k: NodeKey)
    requires SameKey(s0, s, k)
    ensures SameKey(Forget(s0, k), Forget(s, k), k)
    ensures SameKey(s0.(device := s0.device - {k}), s.(device := s.device - {k}), k)
  {
  }

  lemma ReleaseLocal(s0: State, s: State, k: NodeKey)
    requires SameKey(s0, s, k)
    ensures SameKey(Release(s0, k), Release(s, k), k)
  {
  }

  lemma AttemptedLocal(s0: State, s: State, k: NodeKey, w: Wanted, owned: Option<AppliedPeer>)
    requires SameKey(s0, s, k)
    ensures SameKey(Attempted(s0, k, w, owned), Attempted(s, k, w, owned), k)
  {
    hide ConfigFor;
  }

  lemma DoneLocal(c: Config, s0: State, s: State, k: NodeKey, w: Wanted, owned: Option<AppliedPeer>)
    requires SameKey(s0, s, k)
    ensures NeedsUpsert(c, s0, k, w, owned) == NeedsUpsert(c, s, k, w, owned)
    ensures Conflict(c, s0, k, owned) == Conflict(c, s, k, owned)
    ensures SameKey(Done(c, s0, k, w, owned), Done(c, s, k, w, owned), k)
  {
    hide SpecFor, ConfigFor, SpecsEqual, OwnTransport, Record;
    assert NeedsUpsert(c, s0, k, w, owned) == NeedsUpsert(c, s, k, w, owned);
    hide NeedsUpsert;
  }

  lemma DroppedLocal(s0: State, s: State, k: NodeKey, owned: AppliedPeer, fails: bool)
    requires SameKey(s0, s, k)
    ensures SameKey(Dropped(s0, k, owned, fails), Dropped(s, k, owned, fails), k)
  {
    hide Forget, WithError;
    ErrorLocal(s0, s, k);
    ForgetLocal(s0, s, k);
    ForgetLocal(s0.(device := s0.device - {k}), s.(device := s.device - {k}), k);
  }

  lemma PublishedLocal(c: Config, s0: State, s: State, k: NodeKey, w: Wanted, owned: Option<AppliedPeer>, fails: bool)
    requires SameKey(s0, s, k)
    ensures SameKey(Published(c, s0, k, w, owned, fails), Published(c, s, k, w, owned, fails), k)
  {
    hide Conflict, NeedsUpsert, Release, Attempted, Done, WithError, SameKey;
    DoneLocal(c, s0, s, k, w, owned);
    ErrorLocal(s0, s, k);
    ReleaseLocal(s0, s, k);
    ErrorLocal(Release(s0, k), Release(s, k), k);
    AttemptedLocal(s0, s, k, w, owned);
    ErrorLocal(Attempted(s0, k, w, owned), Attempted(s, k, w, owned), k);
  }

  lemma SameKeyTwice(a: State, b: State, d: State, k: NodeKey)
    requires SameKey(a, b, k) && SameKey(b, d, k)
    ensures SameKey(a, d, k)
  {
  }

  /** A step for a key not yet visited that changes only this key. */
  lemma Advance(c: Config, s0: State, desired: Wants, fails: NodeKey -> bool, s: State, s': State,
                visited: set<NodeKey>, k: NodeKey)
    requires Partway(c, s0, desired, fails, s, visited) && OnlyKey(s, s', k) && k !in visited
    requires KeyDone(c, s0, desired, fails, s', k)
    ensures Partway(c, s0, desired, fails, s', visited + {k})
  {
    hide Published, Dropped, SameKey;
    forall j | j in visited + {k} ensures KeyDone(c, s0, desired, fails, s', j) {
      if j != k {
        assert SameKey(s, s', j);
        if j in desired {
          SameKeyTwice(Published(c, s0, j, desired[j], Lookup(s0.applied, j), fails(j)), s, s', j);
        } else {
          SameKeyTwice(Dropped(s0, j, s0.applied[j], fails(j)), s, s', j);
        }
      }
    }
    forall j | j !in visited + {k} ensures SameKey(s0, s', j) {
      SameKeyTwice(s0, s, s', j);
    }
  }

  lemma AdvanceDrop(c: Config, s0: State, desired: Wants, fails: NodeKey -> bool, s: State,
                    visited: set<NodeKey>, k: NodeKey)
    requires Partway(c, s0, desired, fails, s, visited) && Agree(s, {})
    requires k !in visited && k !in desired && k in s0.applied
    ensures var s' := Dropped(s, k, s0.applied[k], fails(k));
            Partway(c, s0, desired, fails, s', visited + {k}) && Agree(s', {})
  {
    hide Published, Dropped, OnlyKey, Agree;
    assert SameKey(s0, s, k);
    DroppedKeeps(s, k, s0.applied[k], fails(k));
    DroppedLocal(s0, s, k, s0.applied[k], fails(k));
    Advance(c, s0, desired, fails, s, Dropped(s, k, s0.applied[k], fails(k)), visited, k);
  }

  lemma AdvancePublish(c: Config, s0: State, desired: Wants, fails: NodeKey -> bool, s: State,
                       visited: set<NodeKey>, k: NodeKey)
    requires Partway(c, s0, desired, fails, s, visited) && Agree(s, {}) && k !in visited && k in desired
    ensures var s' := Published(c, s, k, desired[k], Lookup(s0.applied, k), fails(k));
            Partway(c, s0, desired, fails, s', visited + {k}) && Agree(s', {})
    ensures Calm(c, s, k, desired[k]) <==> Calm(c, s0, k, desired[k])
    ensures OwnedIs(s, k, Lookup(s0.applied, k))
  {
    hide Published, Dropped, OnlyKey, Agree, SpecsEqual, SpecFor, Record;
    assert SameKey(s0, s, k);
    var owned := Lookup(s0.applied, k);
    PublishedKeeps(c, s, k, desired[k], owned, fails(k));
    PublishedLocal(c, s0, s, k, desired[k], owned, fails(k));
    Advance(c, s0, desired, fails, s, Published(c, s, k, desired[k], owned, fails(k)), visited, k);
  }

  /** Publishing counts as a change or leaves an error unless the key is calm. */
  lemma CalmIff(c: Config, s: State, k: NodeKey, w: Wanted, fails: bool)
    ensures var owned := Lookup(s.applied, k);
            && Published(c, s, k, w, owned, fails).revision >= s.revision
            && (Calm(c, s, k, w) <==>
                Published(c, s, k, w, owned, fails).revision == s.revision && !Changes(c, s, k, w, owned, fails))
  {
    hide EndpointFor;
  }

  lemma FinishPass(c: Config, s0: State, desired: Wants, fails: NodeKey -> bool, s: State)
    requires Partway(c, s0, desired, fails, s, s0.applied.Keys + desired.Keys) && Agree(s, {})
    ensures Reconciled(c, s0, desired, fails, Tidied(s, desired.Keys)) && Agree(Tidied(s, desired.Keys), {})
  {
    var s' := Tidied(s, desired.Keys);
    TidiedAgrees(s, desired.Keys);
    hide Agree;
    forall k ensures Outcome(c, s0, desired, fails, s', k) {
      FinishKey(c, s0, desired, fails, s, k);
    }
  }

  lemma TidiedAgrees(s: State, wanted: set<NodeKey>)
    requires Agree(s, {})
    ensures Agree(Tidied(s, wanted), {})
  {
  }

  lemma FinishKey(c: Config, s0: State, desired: Wants, fails: NodeKey -> bool, s: State, k: NodeKey)
    requires Partway(c, s0, desired, fails, s, s0.applied.Keys + desired.Keys)
    ensures Outcome(c, s0, desired, fails, Tidied(s, desired.Keys), k)
  {
    hide Published, Dropped, SameKey;
    var s' := Tidied(s, desired.Keys);
    TidiedKey(s0, s, desired.Keys, k);
    if k in desired {
      assert KeyDone(c, s0, desired, fails, s, k);
      SameKeyTwice(Published(c, s0, k, desired[k], Lookup(s0.applied, k), fails(k)), s, s', k);
    } else if k in s0.applied {
      assert KeyDone(c, s0, desired, fails, s, k);
      DroppedTidy(s0, k, s0.applied[k], fails(k));
      DroppedStays(Dropped(s0, k, s0.applied[k], fails(k)), s, k);
      SameKeyTwice(Dropped(s0, k, s0.applied[k], fails(k)), s, s', k);
    }
  }

  lemma TidiedKey(s0: State, s: State, wanted: set<NodeKey>, k: NodeKey)
    ensures k in wanted || k !in s.local || k in s.applied ==> SameKey(s, Tidied(s, wanted), k)
    ensures k !in wanted && k !in s0.applied && SameKey(s0, s, k) ==>
              SameKey(s0.(local := s0.local - {k}), Tidied(s, wanted), k)
  {
  }

  lemma DroppedTidy(s: State, k: NodeKey, owned: AppliedPeer, fails: bool)
    requires k in s.applied
    ensures var s' := Dropped(s, k, owned, fails); k in s'.applied || k !in s'.local
  {
  }

  lemma DroppedStays(s1: State, s: State, k: NodeKey)
    requires SameKey(s1, s, k) && (k in s1.applied || k !in s1.local)
    ensures k in s.applied || k !in s.local
  {
  }

  // ----- The client -----

  class Client {
    const config: Config
    var nodes: map<int, Node>
    var confirmed: set<string>
    var preferredDERP: int
    var local: map<NodeKey, Local>
    var applied: map<NodeKey, AppliedPeer>
    var bound: map<NodeKey, PeerConfig>
    var device: map<NodeKey, Spec>
    var revision: nat

    ghost function Contents(): State
      reads this
    {
      State(nodes, confirmed, preferredDERP, local, applied, bound, device, revision)
    }

    constructor (config: Config)
      ensures this.config == config && Agree(Contents(), {})
      ensures Contents() == State(map[], {}, 0, map[], map[], map[], map[], 0)
    {
      this.config := config;
      nodes, confirmed, preferredDERP := map[], {}, 0;
      local, applied, bound, device, revision := map[], map[], map[], map[], 0;
    }

    method SetPeerError(k: NodeKey)
      modifies this`local, this`revision
      ensures Contents() == WithError(old(Contents()), k)
    {
      var l := if k in local then local[k] else NEW_LOCAL;
      local := local[k := l.(failed := true)];
      revision := revision + 1;
    }

    /** One wanted peer for each key of an eligible node, in whatever order the nodes are met. */
    method WantedPeers() returns (desired: Wants)
      ensures Desires(config, Contents(), desired)
    {
      hide WantedOf;
      desired := map[];
      var todo := nodes.Keys;
      ghost var s := Contents();
      while todo != {}
        invariant todo <= nodes.Keys
        invariant forall k :: k in desired ==> exists i :: i in nodes && IsChoice(config, s, k, desired[k], i)
        invariant forall i :: i in nodes && i !in todo && Eligible(config, s, nodes[i]) ==> nodes[i].key in desired
      {
        var i := Sets.Pick(todo);
        todo := todo - {i};
        var n := nodes[i];
        if n.key != 0 && !n.peerAPIOnly && !n.expired && (!config.confirmPeers || PeerId(config, n) in confirmed) {
          var wanted := Want(n);
          assert IsChoice(config, s, n.key, wanted, i);
          desired := desired[n.key := wanted];
        }
      }
    }

    method Want(n: Node) returns (w: Wanted)
      ensures w == WantedOf(config, Contents(), n)
    {
      var home := n.Home();
      if home == 0 {
        home := preferredDERP;
      }
      w := Wanted(n, PeerId(config, n), home, NoPath, NO_ADDR, false);
      if n.key in local {
        var l := local[n.key];
        w := w.(path := l.path, direct := l.direct, recovering := l.recovering);
      }
    }

    method DropPeer(k: NodeKey, owned: AppliedPeer, fails: bool) returns (changed: bool)
      requires k in applied
      modifies this
      ensures Contents() == Dropped(old(Contents()), k, owned, fails)
      ensures changed || revision > old(revision)
    {
      if k !in device || device[k].endpoint == owned.endpoint {
        if fails {
          SetPeerError(k);
          return false;
        }
        device := device - {k};
      }
      bound := bound - {k};
      applied := applied - {k};
      local := local - {k};
      changed := true;
    }

    method PublishPeer(k: NodeKey, w: Wanted, owned: Option<AppliedPeer>, fails: bool) returns (changed: bool)
      modifies this
      ensures Contents() == Published(config, old(Contents()), k, w, owned, fails)
      ensures changed == Changes(config, old(Contents()), k, w, owned, fails)
    {
      hide SpecFor, ConfigFor, SpecsEqual;
      if owned.Some? && k in device && device[k].endpoint != owned.value.endpoint {
        applied := applied - {k};
        if k in local {
          local := local[k := local[k].(applied := false)];
        }
        bound := bound - {k};
        SetPeerError(k);
        return false;
      }
      if owned.None? && k in device && !OwnTransport(config, device[k]) {
        SetPeerError(k);
        return false;
      }
      ghost var before := bound;
      bound := bound[k := ConfigFor(k, w)];
      var spec := SpecFor(config, w);
      var needsUpsert := owned.None? || k !in device || !SpecsEqual(device[k], spec);
      if needsUpsert {
        if fails {
          if owned.None? {
            bound := bound - {k};
            assert bound == before - {k};
          }
          SetPeerError(k);
          return false;
        }
        device := device[k := spec];
      }
      var record := AppliedPeer(w.id, spec.endpoint);
      var wasApplied, previous := k in applied, if k in applied then applied[k] else record;
      applied := applied[k := record];
      var l := if k in local then local[k] else NEW_LOCAL;
      var localChanged := !l.applied || l.failed;
      local := local[k := l.(applied := true, failed := false)];
      changed := needsUpsert || !wasApplied || previous != record || localChanged;
    }

    /** Withdraws the published peers that are not wanted any more. */
    method DropUnwanted(desired: Wants, owned: map<NodeKey, AppliedPeer>, fails: NodeKey -> bool)
      returns (changed: bool)
      requires owned == applied && Agree(Contents(), {})
      modifies this
      ensures Agree(Contents(), {})
      ensures Partway(config, old(Contents()), desired, fails, Contents(), owned.Keys - desired.Keys)
      ensures revision >= old(revision)
      ensures changed || revision > old(revision) <==> owned.Keys - desired.Keys != {}
    {
      hide Partway, Agree, Dropped;
      changed := false;
      var todo := owned.Keys - desired.Keys;
      ghost var all, s0 := todo, Contents();
      NoneVisited(config, s0, desired, fails);
      assert all - todo == {};
      while todo != {}
        invariant todo <= all && Agree(Contents(), {})
        invariant Partway(config, s0, desired, fails, Contents(), all - todo)
        invariant revision >= s0.revision && (changed || revision > s0.revision <==> all - todo != {})
      {
        var k := Sets.Pick(todo);
        ghost var visited, s := all - todo, Contents();
        AdvanceDrop(config, s0, desired, fails, s, visited, k);
        StillApplied(config, s0, desired, fails, s, visited, k);
        DroppedRevision(s, k, owned[k], fails(k));
        var dropped := DropPeer(k, owned[k], fails(k));
        changed := changed || dropped;
        todo := todo - {k};
        assert all - todo == visited + {k};
      }
      assert all - todo == all;
    }

    method PublishWanted(desired: Wants, owned: map<NodeKey, AppliedPeer>, fails: NodeKey -> bool,
                         ghost s0: State)
      returns (changed: bool)
      requires owned == s0.applied && Agree(Contents(), {})
      requires Partway(config, s0, desired, fails, Contents(), owned.Keys - desired.Keys)
      modifies this
      ensures Agree(Contents(), {})
      ensures Partway(config, s0, desired, fails, Contents(), owned.Keys + desired.Keys)
      ensures revision >= old(revision)
      ensures !changed && revision == old(revision) <==> AllCalm(config, s0, desired, desired.Keys)
    {
      hide Partway, Agree, Published, Changes, Calm;
      changed := false;
      var todo := desired.Keys;
      ghost var drops := owned.Keys - desired.Keys;
      assert drops + (desired.Keys - todo) == drops;
      while todo != {}
        invariant todo <= desired.Keys && Agree(Contents(), {})
        invariant Partway(config, s0, desired, fails, Contents(), drops + (desired.Keys - todo))
        invariant revision >= old(revision)
        invariant !changed && revision == old(revision) <==> AllCalm(config, s0, desired, desired.Keys - todo)
      {
        var k := Sets.Pick(todo);
        ghost var visited, s := drops + (desired.Keys - todo), Contents();
        AdvancePublish(config, s0, desired, fails, s, visited, k);
        CalmIff(config, s, k, desired[k], fails(k));
        var published := PublishPeer(k, desired[k], Lookup(owned, k), fails(k));
        changed := changed || published;
        OneMoreCalm(config, s0, desired, desired.Keys - todo, k);
        todo := todo - {k};
        assert desired.Keys - todo == desired.Keys - (todo + {k}) + {k};
        assert drops + (desired.Keys - todo) == visited + {k};
      }
      assert drops + (desired.Keys - todo) == owned.Keys + desired.Keys;
      assert desired.Keys - todo == desired.Keys;
    }

    /**
     * `reconcilePeers`, where `fails` says for which keys the device refuses the change. Nothing is
     * changed and no revision is used exactly if the pass is quiet.
     */
    method ReconcilePeers(fails: NodeKey -> bool) returns (ghost desired: Wants)
      requires Agree(Contents(), {})
      modifies this
      ensures Desires(config, old(Contents()), desired)
      ensures Reconciled(config, old(Contents()), desired, fails, Contents()) && Agree(Contents(), {})
      ensures revision == old(revision) <==> Quiet(config, old(Contents()), desired)
      ensures forall k :: !fails(k) ==> KeyMeaning(config, old(Contents()), Contents(), k)
      ensures forall k :: fails(k) ==>
                KeyMeaning(config, old(Contents()), Contents(), k) || Refused(old(Contents()), Contents(), k)
    {
      desired := PassOver(fails);
      hide Agree, Desires, Reconciled, Quiet, KeyMeaning, Refused;
      forall k | fails(k)
        ensures KeyMeaning(config, old(Contents()), Contents(), k) || Refused(old(Contents()), Contents(), k)
      {
        PassMeaningRefused(config, old(Contents()), desired, fails, Contents(), k);
      }
      forall k | !fails(k) ensures KeyMeaning(config, old(Contents()), Contents(), k) {
        PassMeaning(config, old(Contents()), desired, fails, Contents(), k);
      }
    }

    method PassOver(fails: NodeKey -> bool) returns (ghost desired: Wants)
      requires Agree(Contents(), {})
      modifies this
      ensures Desires(config, old(Contents()), desired)
      ensures Reconciled(config, old(Contents()), desired, fails, Contents()) && Agree(Contents(), {})
      ensures revision == old(revision) <==> Quiet(config, old(Contents()), desired)
    {
      hide Agree, Desires, Reconciled, Partway, Calm;
      ghost var s0 := Contents();
      var wanted := WantedPeers();
      desired := wanted;
      var owned := applied;
      var dropped := DropUnwanted(wanted, owned, fails);
      var published := PublishWanted(wanted, owned, fails, s0);
      FinishPass(config, s0, wanted, fails, Contents());
      TidyLocal(wanted);
      NothingToDrop(owned, wanted);
      if dropped || published {
        BumpKeeps(config, s0, wanted, fails, Contents());
        revision := revision + 1;
      }
    }

    method TidyLocal(desired: Wants)
      modifies this`local
      ensures Contents() == Tidied(old(Contents()), desired.Keys)
    {
      var todo := local.Keys;
      while todo != {}
        invariant todo <= local.Keys <= old(local).Keys
        invariant forall k :: k in local ==> local[k] == old(local)[k] && (k in todo || k in desired || k in applied)
        invariant forall k :: k in old(local) && (k in desired || k in applied) ==> k in local
      {
        var k := Sets.Pick(todo);
        todo := todo - {k};
        if k !in desired && k !in applied {
          local := local - {k};
        }
      }
      assert local == map k | k in old(local) && (k in desired.Keys || k in applied) :: old(local)[k];
    }

    method WithdrawAll(owned: map<NodeKey, AppliedPeer>, attached: bool, fails: NodeKey -> bool)
      modifies this`device, this`bound
      ensures bound == old(bound) - owned.Keys
      ensures device == Withdraw(old(device), owned, owned.Keys, attached, fails)
    {
      hide Withdraw;
      var todo := owned.Keys;
      NoneWithdrawn(device, owned, attached, fails);
      while todo != {}
        invariant todo <= owned.Keys && bound == old(bound) - (owned.Keys - todo)
        invariant device == Withdraw(old(device), owned, owned.Keys - todo, attached, fails)
      {
        var k := Sets.Pick(todo);
        ghost var done := owned.Keys - todo;
        OneWithdrawn(old(device), owned, done, attached, fails, k);
        if attached && (k !in device || device[k].endpoint == owned[k].endpoint) && !fails(k) {
          device := device - {k};
        }
        bound := bound - {k};
        todo := todo - {k};
        assert owned.Keys - todo == done + {k};
      }
      assert owned.Keys - todo == owned.Keys;
    }

    /** `removeOwnedPeers`: nothing stays on record, and only what is as published is deleted. */
    method RemoveOwnedPeers(attached: bool, fails: NodeKey -> bool)
      requires Agree(Contents(), {})
      modifies this`device, this`bound, this`applied, this`local
      ensures applied == map[] && bound == map[] && local == old(local) - old(applied).Keys && Agree(Contents(), {})
      ensures forall k :: k in device ==> k in old(device) && device[k] == old(device)[k]
      ensures forall k :: k in old(device) ==>
                (k !in device <==>
                   attached && !fails(k) && k in old(applied) && old(device)[k].endpoint == old(applied)[k].endpoint)
      ensures LeavesForeign(config, old(Contents()), Contents())
    {
      hide LeavesForeign, Withdraw;
      var owned := applied;
      WithdrawAll(owned, attached, fails);
      applied := applied - owned.Keys;
      local := local - owned.Keys;
      WithdrawLeavesForeign(config, old(Contents()), Contents(), attached, fails);
      WithdrawMeaning(old(device), owned, attached, fails);
    }

    method HandlePath(u: PathUpdate, stopping: bool)
      modifies this`local, this`revision
      ensures Contents() == OnPath(old(Contents()), u, stopping)
    {
      hide Moved;
      if stopping {
        return;
      }
      var known := u.key in local;
      var todo := nodes.Keys;
      while !known && todo != {}
        invariant todo <= nodes.Keys && Contents() == old(Contents())
        invariant known ==> Known(Contents(), u.key)
        invariant !known ==> u.key !in local && forall i :: i in nodes && i !in todo ==> nodes[i].key != u.key
      {
        var i := Sets.Pick(todo);
        todo := todo - {i};
        known := nodes[i].key == u.key;
      }
      if !known {
        return;
      }
      var l := if u.key in local then local[u.key] else NEW_LOCAL;
      var moved := Moved(l, u.Kind(), u.addr.Unmap(), u.latency, u.at);
      if moved != l {
        local := local[u.key := moved];
        revision := revision + 1;
      }
    }

    method RecoverStalePaths(now: Time, idle: set<NodeKey>) returns (changed: bool)
      modifies this`local
      ensures Contents() == Recovered(config, old(Contents()), now, idle)
      ensures changed <==> local != old(local)
    {
      hide RecoveredLocal;
      changed := false;
      var todo := local.Keys;
      ghost var s := Contents();
      while todo != {}
        invariant todo <= local.Keys == s.local.Keys
        invariant forall k :: k in local ==>
          local[k] == if k in todo then s.local[k] else RecoveredLocal(config, s, k, now, idle)
        invariant changed <==> local != s.local
      {
        var k := Sets.Pick(todo);
        todo := todo - {k};
        RecoveredIs(config, s, k, now, idle);
        var l := local[k];
        if l.applied && l.path == DirectPath && l.direct.IsValid() && !l.recovering
           && l.directSince.Some? && now - l.directSince.value >= HANDSHAKE_GRACE {
          var direct := Endpoint(config.defaultTransport, config.addrText(l.direct));
          if k in applied && applied[k].endpoint == Some(direct) && k in idle {
            local := local[k := l.(recovering := true, recoveryDirect := l.direct)];
            changed := true;
            assert local[k] != s.local[k];
          }
        }
      }
      assert local == map k | k in s.local :: RecoveredLocal(config, s, k, now, idle);
    }

    method ClearLocals()
      modifies this`local, this`bound
      ensures local == map k | k in old(local) :: ClearedLocal(old(local)[k])
      ensures bound == old(bound) - old(local).Keys
    {
      var todo := local.Keys;
      while todo != {}
        invariant todo <= local.Keys == old(local).Keys && bound == old(bound) - (old(local).Keys - todo)
        invariant forall k :: k in local ==>
          local[k] == if k in todo then old(local)[k] else ClearedLocal(old(local)[k])
      {
        var k := Sets.Pick(todo);
        todo := todo - {k};
        local := local[k := ClearedLocal(local[k])];
        bound := bound - {k};
      }
      assert old(local).Keys - todo == old(local).Keys;
    }

    method ClearAppliedDevice()
      modifies this`applied, this`local, this`bound, this`revision
      ensures Contents() == Cleared(old(Contents()))
    {
      hide ClearedLocal;
      var changed := applied != map[];
      applied := map[];
      ClearLocals();
      if changed {
        revision := revision + 1;
      }
    }
  }

  /** The stale path check, written out. */
  lemma RecoveredIs(c: Config, s: State, k: NodeKey, now: Time, idle: set<NodeKey>)
    requires k in s.local
    ensures var l := s.local[k];
            RecoveredLocal(c, s, k, now, idle) ==
            if (l.applied && l.path == DirectPath && l.direct.IsValid() && !l.recovering
                && l.directSince.Some? && now - l.directSince.value >= HANDSHAKE_GRACE
                && k in s.applied && s.applied[k].endpoint == Some(Endpoint(c.defaultTransport, c.addrText(l.direct)))
                && k in idle)
            then l.(recovering := true, recoveryDirect := l.direct) else l
  {
  }

  lemma NothingToDrop(owned: map<NodeKey, AppliedPeer>, desired: Wants)
    ensures owned.Keys - desired.Keys == {} <==> forall k :: k in owned ==> k in desired
  {
    if owned.Keys - desired.Keys == {} {
      forall k | k in owned ensures k in desired {
        assert k !in owned.Keys - desired.Keys;
      }
    }
  }

  lemma NoneWithdrawn(device: map<NodeKey, Spec>, owned: map<NodeKey, AppliedPeer>, attached: bool,
                      fails: NodeKey -> bool)
    ensures Withdraw(device, owned, owned.Keys - owned.Keys, attached, fails) == device
  {
  }

  lemma OneWithdrawn(device: map<NodeKey, Spec>, owned: map<NodeKey, AppliedPeer>, keys: set<NodeKey>,
                     attached: bool, fails: NodeKey -> bool, k: NodeKey)
    requires keys <= owned.Keys && k in owned && k !in keys
    ensures var before := Withdraw(device, owned, keys, attached, fails);
            Withdraw(device, owned, keys + {k}, attached, fails) ==
            if attached && (k !in before || before[k].endpoint == owned[k].endpoint) && !fails(k)
            then before - {k} else before
  {
  }

  lemma WithdrawMeaning(device: map<NodeKey, Spec>, owned: map<NodeKey, AppliedPeer>, attached: bool,
                        fails: NodeKey -> bool)
    ensures var left := Withdraw(device, owned, owned.Keys, attached, fails);
            && (forall k :: k in left ==> k in device && left[k] == device[k])
            && (forall k :: k in device ==>
                  (k !in left <==> attached && !fails(k) && k in owned && device[k].endpoint == owned[k].endpoint))
  {
  }

  lemma WithdrawLeavesForeign(c: Config, s: State, s': State, attached: bool, fails: NodeKey -> bool)
    requires s'.device == Withdraw(s.device, s.applied, s.applied.Keys, attached, fails)
    ensures LeavesForeign(c, s, s')
  {
  }

  /** The device after shutdown has visited `keys`. */
  ghost function Withdraw(device: map<NodeKey, Spec>, owned: map<NodeKey, AppliedPeer>, keys: set<NodeKey>,
                          attached: bool, fails: NodeKey -> bool): map<NodeKey, Spec>
    requires keys <= owned.Keys
  {
    map k | k in device && !(k in keys && attached && !fails(k) && device[k].endpoint == owned[k].endpoint) :: device[k]
  }

  /** A revision is not part of what a pass does to a key. */
  lemma BumpKeeps(c: Config, s0: State, desired: Wants, fails: NodeKey -> bool, s: State)
    requires Reconciled(c, s0, desired, fails, s) && Agree(s, {})
    ensures var s' := s.(revision := s.revision + 1); Reconciled(c, s0, desired, fails, s') && Agree(s', {})
  {
    hide Published, Dropped;
    var s' := s.(revision := s.revision + 1);
    forall k ensures Outcome(c, s0, desired, fails, s', k) {
      assert Outcome(c, s0, desired, fails, s, k);
    }
  }

  ghost predicate AllCalm(c: Config, s: State, desired: Wants, keys: set<NodeKey>)
    requires keys <= desired.Keys
  {
    forall k :: k in keys ==> Calm(c, s, k, desired[k])
  }

  lemma OneMoreCalm(c: Config, s: State, desired: Wants, keys: set<NodeKey>, k: NodeKey)
    requires keys <= desired.Keys && k in desired
    ensures AllCalm(c, s, desired, keys + {k}) <==> AllCalm(c, s, desired, keys) && Calm(c, s, k, desired[k])
  {
  }

  lemma NoneVisited(c: Config, s: State, desired: Wants, fails: NodeKey -> bool)
    ensures Partway(c, s, desired, fails, s, {})
  {
  }

  lemma StillApplied(c: Config, s0: State, desired: Wants, fails: NodeKey -> bool, s: State,
                     visited: set<NodeKey>, k: NodeKey)
    requires Partway(c, s0, desired, fails, s, visited) && k !in visited
    ensures Lookup(s.applied, k) == Lookup(s0.applied, k)
  {
    assert SameKey(s0, s, k);
  }

  lemma DroppedRevision(s: State, k: NodeKey, owned: AppliedPeer, fails: bool)
    ensures Dropped(s, k, owned, fails).revision >= s.revision
  {
  }
}
