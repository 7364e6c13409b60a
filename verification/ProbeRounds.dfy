/**
 * Rounds of relay probes (`internal/tailnet/netcheck.go`, `internal/tailnet/stun.go`). Each method
 * of `Prober` is one section of the source under the bind's lock, with the signal that may follow
 * it. Sections of different goroutines (queries, replies, finishers) may come in any order; what a
 * method requires is only that its own goroutine has come to it.
 */
module ProbeRounds {
  import opened Options
  import opened Ordering
  import opened Sets

  type Tx = seq<int>

  datatype Target = Target(region: int, hasStun: bool)

  /** `signals` counts the values put into `stunDone`. */
  datatype Round = Round(
    id: nat, full: bool, targets: seq<Target>, remaining: nat, latencies: map<int, int>, signals: nat)

  datatype Probe = Probe(checkID: nat, region: int)

  /** A STUN query: its round and the index of its target. */
  type QueryId = (nat, nat)

  /** The goroutine of a query: still at it, about to count its target as failed, done with that, or sent. */
  datatype Sender = Running | Quitting | Quit | Sent

  /**
   * The transaction of a query: none yet, pending, taken by a reply that is being handled, counted
   * by that reply, deleted by the query itself, or dropped unanswered.
   */
  datatype Reply = Unregistered | Waiting | InHand | Counted | Withdrawn | Dropped

  datatype Query = Query(region: int, tx: Option<Tx>, sender: Sender, reply: Reply) {
    /** How often the query has counted towards its round. */
    function Calls(): nat {
      (if sender.Quit? then 1 else 0) + (if reply.Counted? then 1 else 0)
    }

    /** What can be said of a query in every state. */
    predicate Ok() {
      && (tx.None? <==> reply.Unregistered?)
      && (reply.Waiting? ==> sender.Running? || sender.Sent?)
      && (reply.Withdrawn? ==> sender.Quitting? || sender.Quit?)
      && (sender.Sent? ==> tx.Some?)
    }
  }

  type Queries = map<QueryId, Query>
  type Pending = map<Tx, Probe>
  type Owners = map<Tx, QueryId>

  datatype Report = Report(id: nat, full: bool, regions: seq<int>, latencies: map<int, int>)

  // ----- The two updates of a round -----

  /** `completeSTUNProbe`. */
  function Complete(round: Option<Round>, checkID: nat): Option<Round> {
    if round.None? || round.value.id != checkID || round.value.remaining == 0 then round
    else
      var remaining := round.value.remaining - 1;
      Some(round.value.(remaining := remaining, signals := round.value.signals + if remaining == 0 then 1 else 0))
  }

  /** `recordDERPLatency`. */
  function Record(round: Option<Round>, checkID: nat, region: int, latency: int): Option<Round> {
    if region == 0 || latency <= 0 || round.None? || round.value.id != checkID then round
    else if region in round.value.latencies && round.value.latencies[region] <= latency then round
    else Some(round.value.(latencies := round.value.latencies[region := latency]))
  }

  /** Whatever arrives for another round changes nothing in the current one. */
  lemma StaleChangesNothing(round: Option<Round>, checkID: nat, region: int, latency: int)
    requires round.Some? && round.value.id != checkID
    ensures Complete(Record(round, checkID, region, latency), checkID) == round
  {
  }

  // ----- What the books say -----

  /** The targets of a round that have not completed. */
  ghost function Open(queries: Queries, id: nat): set<QueryId> {
    set q | q in queries && q.0 == id && queries[q].Calls() == 0
  }

  /** The targets of a round that have been counted twice. */
  ghost function Twice(queries: Queries, id: nat): set<QueryId> {
    set q | q in queries && q.0 == id && queries[q].Calls() == 2
  }

  /** `remaining` falls short of the open targets by one for each target counted twice, down to 0. */
  ghost predicate Balanced(round: Option<Round>, queries: Queries) {
    round.Some? ==>
      var open, twice := |Open(queries, round.value.id)|, |Twice(queries, round.value.id)|;
      round.value.remaining == if open <= twice then 0 else open - twice
  }

  /** `remaining` is the number of targets of the round that have not completed. */
  ghost predicate Accounts(round: Option<Round>, queries: Queries) {
    round.Some? ==> round.value.remaining == |Open(queries, round.value.id)|
  }

  /** The books never show more than is open, and are right exactly if no target was counted twice or none is open. */
  lemma BooksAreRight(round: Option<Round>, queries: Queries)
    requires Balanced(round, queries) && round.Some?
    ensures round.value.remaining <= |Open(queries, round.value.id)|
    ensures Accounts(round, queries) <==>
            Twice(queries, round.value.id) == {} || Open(queries, round.value.id) == {}
  {
    if |Twice(queries, round.value.id)| == 0 {
      assert Twice(queries, round.value.id) == {};
    }
  }

  /**
   * A target is counted twice exactly if its query gave up although a reply had taken its
   * transaction: the query did not find the transaction to delete, and it was not dropped.
   */
  lemma CountedTwice(query: Query)
    requires query.Ok() && query.sender.Quit? && !query.reply.InHand?
    ensures query.Calls() == 2 <==> query.tx.Some? && !query.reply.Withdrawn? && !query.reply.Dropped?
    ensures query.Calls() >= 1
  {
  }

  /** `stunDone` has been signalled once if no target remains, and not at all before. */
  ghost predicate Signalled(round: Option<Round>) {
    round.Some? ==> round.value.signals == if round.value.remaining == 0 then 1 else 0
  }

  /** The pending transactions are exactly those of the waiting queries. */
  ghost predicate Linked(pending: Pending, owner: Owners, queries: Queries) {
    && (forall tx :: tx in pending ==>
          && tx in owner && owner[tx] in queries
          && queries[owner[tx]].tx == Some(tx) && queries[owner[tx]].reply.Waiting?
          && pending[tx] == Probe(owner[tx].0, queries[owner[tx]].region))
    && (forall q :: q in queries && queries[q].reply.Waiting? ==>
          queries[q].tx.Some? && IsPending(pending, owner, queries[q].tx.value, q))
    && (forall q :: q in queries ==> queries[q].Ok())
  }

  /** The transaction is pending for this query. */
  ghost predicate IsPending(pending: Pending, owner: Owners, tx: Tx, q: QueryId) {
    tx in pending && tx in owner && owner[tx] == q
  }

  /** How the numbers of open targets and of those counted twice change when a query counts once more. */
  lemma OneMoreCall(queries: Queries, q: QueryId, query: Query, id: nat)
    requires q in queries && query.Calls() == queries[q].Calls() + 1
    ensures var queries' := queries[q := query];
            if q.0 != id then
              |Open(queries', id)| == |Open(queries, id)| && |Twice(queries', id)| == |Twice(queries, id)|
            else if queries[q].Calls() == 0 then
              |Open(queries', id)| == |Open(queries, id)| - 1 && |Twice(queries', id)| == |Twice(queries, id)|
            else
              |Open(queries', id)| == |Open(queries, id)| && |Twice(queries', id)| == |Twice(queries, id)| + 1
  {
    var queries' := queries[q := query];
    assert Open(queries', id) == Open(queries, id) - (if q.0 == id && queries[q].Calls() == 0 then {q} else {});
    assert Twice(queries', id) == Twice(queries, id) + (if q.0 == id && queries[q].Calls() == 1 then {q} else {});
  }

  /** A query counts once more. */
  lemma CountOnce(round: Option<Round>, queries: Queries, q: QueryId, query: Query)
    requires Balanced(round, queries) && Signalled(round)
    requires q in queries && query.Calls() == queries[q].Calls() + 1
    ensures Balanced(Complete(round, q.0), queries[q := query])
    ensures Signalled(Complete(round, q.0))
  {
    if round.Some? {
      hide Open, Twice;
      OneMoreCall(queries, q, query, round.value.id);
    }
  }

  /** Nothing is counted. */
  lemma CountNone(round: Option<Round>, queries: Queries, queries': Queries)
    requires Balanced(round, queries) && queries'.Keys == queries.Keys
    requires forall q :: q in queries ==> queries'[q].Calls() == queries[q].Calls()
    ensures Balanced(round, queries')
  {
    if round.Some? {
      var id := round.value.id;
      assert Open(queries', id) == Open(queries, id) && Twice(queries', id) == Twice(queries, id);
    }
  }

  lemma RecordKeepsBooks(round: Option<Round>, queries: Queries, checkID: nat, region: int, latency: int)
    requires Balanced(round, queries) && Signalled(round)
    ensures Balanced(Record(round, checkID, region, latency), queries)
    ensures Signalled(Record(round, checkID, region, latency))
  {
  }

  /** The queries whose pending transactions are dropped unanswered. */
  ghost function DropReplies(queries: Queries, gone: set<Tx>): Queries {
    map q | q in queries ::
      if queries[q].reply.Waiting? && queries[q].tx.Some? && queries[q].tx.value in gone
      then queries[q].(reply := Dropped)
      else queries[q]
  }

  lemma DropLinked(pending: Pending, owner: Owners, queries: Queries, gone: set<Tx>)
    requires Linked(pending, owner, queries)
    ensures Linked(pending - gone, owner, DropReplies(queries, gone))
  {
  }

  lemma DropBalanced(round: Option<Round>, queries: Queries, gone: set<Tx>)
    requires Balanced(round, queries)
    ensures Balanced(round, DropReplies(queries, gone))
  {
    CountNone(round, queries, DropReplies(queries, gone));
  }

  /** A query that is not waiting changes without touching its transaction. */
  lemma MoveLinked(pending: Pending, owner: Owners, queries: Queries, q: QueryId, query: Query)
    requires Linked(pending, owner, queries) && q in queries && query.Ok()
    requires query.tx == queries[q].tx && query.region == queries[q].region
    requires query.reply.Waiting? <==> queries[q].reply.Waiting?
    ensures Linked(pending, owner, queries[q := query])
  {
  }

  /** The transaction of a query leaves the pending ones. */
  lemma TakeLinked(pending: Pending, owner: Owners, queries: Queries, q: QueryId, query: Query, tx: Tx)
    requires Linked(pending, owner, queries) && q in queries && query.Ok()
    requires queries[q].tx == query.tx == Some(tx) && query.region == queries[q].region && !query.reply.Waiting?
    requires IsPending(pending, owner, tx, q)
    ensures Linked(pending - {tx}, owner, queries[q := query])
  {
  }

  /** The targets of round `id` to query. */
  ghost function StunTargets(id: nat, targets: seq<Target>, useStun: bool): (qs: set<QueryId>)
    ensures forall q :: q in qs <==> useStun && q.0 == id && q.1 < |targets| && targets[q.1].hasStun
  {
    if targets == [] || !useStun then {}
    else
      var last := |targets| - 1;
      StunTargets(id, targets[..last], true) + if targets[last].hasStun then {(id, last)} else {}
  }

  lemma CountOne(id: nat, targets: seq<Target>, i: nat)
    requires i < |targets|
    ensures |StunTargets(id, targets[..i + 1], true)| ==
            |StunTargets(id, targets[..i], true)| + if targets[i].hasStun then 1 else 0
  {
    assert targets[..i + 1][..i] == targets[..i];
  }

  ghost function NewQueries(id: nat, targets: seq<Target>, useStun: bool): Queries {
    map q | q in StunTargets(id, targets, useStun) :: Query(targets[q.1].region, None, Running, Unregistered)
  }

  /** The queries of a new round are exactly its open targets. */
  lemma StartQueries(queries: Queries, id: nat, targets: seq<Target>, useStun: bool)
    requires forall q :: q in queries ==> q.0 < id
    ensures Open(queries + NewQueries(id, targets, useStun), id) == StunTargets(id, targets, useStun)
    ensures Twice(queries + NewQueries(id, targets, useStun), id) == {}
    ensures forall q :: q in queries + NewQueries(id, targets, useStun) ==> q.0 <= id
  {
  }

  lemma StartLinked(
    pending: Pending, owner: Owners, queries: Queries, id: nat, targets: seq<Target>,
    useStun: bool)
    requires Linked(pending, owner, queries) && forall q :: q in queries ==> q.0 < id
    ensures Linked(pending, owner, queries + NewQueries(id, targets, useStun))
  {
  }

  /** Registering drops what another query may have pending under the same transaction id. */
  lemma RegisterLinked(
    pending: Pending, owner: Owners, queries: Queries, tx: Tx, probe: Probe, q: QueryId)
    requires Linked(pending, owner, queries)
    requires q in queries && queries[q] == Query(probe.region, None, Running, Unregistered) && q.0 == probe.checkID
    ensures Linked(pending[tx := probe], owner[tx := q], Registered(queries, tx, q))
  {
  }

  ghost function Registered(queries: Queries, tx: Tx, q: QueryId): Queries
    requires q in queries
  {
    DropReplies(queries, {tx})[q := queries[q].(tx := Some(tx), reply := Waiting)]
  }

  lemma RecordKeepsMinimal(latencies: map<int, int>, recorded: set<(int, int)>, region: int, latency: int)
    requires Minimal(latencies, recorded)
    ensures var kept :=
              if region in latencies && latencies[region] <= latency then latencies else latencies[region := latency];
            Minimal(kept, recorded + {(region, latency)})
  {
  }

  /** For each region the least of the latencies recorded for the round, and no other region. */
  ghost predicate Minimal(latencies: map<int, int>, recorded: set<(int, int)>) {
    && (forall r :: r in latencies ==> (r, latencies[r]) in recorded)
    && (forall r, l :: (r, l) in recorded ==> r in latencies && latencies[r] <= l)
  }

  class Prober {
    var checkID: nat
    var round: Option<Round>
    var pending: Pending
    var derpLatency: map<int, int>
    // history: who owns a transaction, every query started, what was recorded for the current
    // round, and the reports published
    ghost var owner: Owners
    ghost var queries: Queries
    ghost var recorded: set<(int, int)>
    ghost var published: seq<Report>

    ghost predicate Booked()
      reads this
    {
      Balanced(round, queries) && Signalled(round) && Linked(pending, owner, queries)
    }

    /** Rounds are numbered, and each is published at most once, before the next one starts. */
    ghost predicate Numbered()
      reads this
    {
      && (forall q :: q in queries ==> q.0 <= checkID)
      && (round.Some? ==> round.value.id == checkID)
      && (forall i :: 0 <= i < |published| ==> published[i].id <= checkID - if round.Some? then 1 else 0)
      && (forall i, j :: 0 <= i < j < |published| ==> published[i].id < published[j].id)
    }

    ghost predicate Valid()
      reads this
    {
      Booked() && Numbered() && (round.Some? ==> Minimal(round.value.latencies, recorded))
    }

    constructor ()
      ensures Valid() && checkID == 0 && round == None && pending == map[]
      ensures queries == map[] && published == []
    {
      checkID, round, pending, derpLatency := 0, None, map[], map[];
      owner, queries, recorded, published := map[], map[], {}, [];
    }

    /** The bookkeeping of `kickDiscovery` for targets already selected; the books of a new round are right. */
    method StartRound(targets: seq<Target>, full: bool, useStun: bool) returns (remaining: nat)
      requires Valid()
      modifies this`checkID, this`round, this`queries, this`recorded
      ensures Valid() && Evolves(old(queries), queries) && Accounts(round, queries)
      ensures checkID == old(checkID) + 1
      ensures remaining == |StunTargets(checkID, targets, useStun)|
      ensures round == Some(Round(checkID, full, targets, remaining, map[], if remaining == 0 then 1 else 0))
      ensures queries == old(queries) + NewQueries(checkID, targets, useStun)
    {
      hide Linked, StunTargets, NewQueries, Open, Twice, Evolves;
      StartEvolves(queries, checkID + 1, targets, useStun);
      StartQueries(queries, checkID + 1, targets, useStun);
      StartLinked(pending, owner, queries, checkID + 1, targets, useStun);
      checkID := checkID + 1;
      remaining := CountStun(targets, useStun);
      queries := queries + NewQueries(checkID, targets, useStun);
      round := Some(Round(checkID, full, targets, remaining, map[], if remaining == 0 then 1 else 0));
      recorded := {};
    }

    /** The loop that counts the targets to query. */
    method CountStun(targets: seq<Target>, useStun: bool) returns (remaining: nat)
      ensures remaining == |StunTargets(checkID, targets, useStun)|
    {
      remaining := 0;
      if useStun {
        for i := 0 to |targets|
          invariant remaining == |StunTargets(checkID, targets[..i], true)|
        {
          CountOne(checkID, targets, i);
          if targets[i].hasStun {
            remaining := remaining + 1;
          }
        }
        assert targets[..|targets|] == targets;
      }
    }

    /** `querySTUN` has a transaction id and expects an answer to it. */
    method RegisterQuery(tx: Tx, probe: Probe, ghost q: QueryId)
      requires Valid()
      requires q in queries && queries[q] == Query(probe.region, None, Running, Unregistered) && q.0 == probe.checkID
      modifies this`pending, this`owner, this`queries
      ensures Valid() && Evolves(old(queries), queries)
      ensures pending == old(pending)[tx := probe] && owner == old(owner)[tx := q]
      ensures queries == Registered(old(queries), tx, q)
    {
      hide Balanced, Signalled, Linked, Minimal, Evolves;
      RegisterEvolves(queries, tx, q);
      CountNone(round, queries, Registered(queries, tx, q));
      RegisterLinked(pending, owner, queries, tx, probe, q);
      pending := pending[tx := probe];
      owner := owner[tx := q];
      queries := Registered(queries, tx, q);
    }

    /** A write of the request has succeeded, so the query ends and leaves the rest to the reply. */
    ghost method QuerySent(q: QueryId)
      requires Valid() && q in queries && queries[q].sender.Running? && queries[q].tx.Some?
      modifies this`queries
      ensures Valid() && Evolves(old(queries), queries)
      ensures queries == old(queries)[q := old(queries)[q].(sender := Sent)]
    {
      hide Balanced, Signalled, Minimal, IsPending, Evolves;
      ghost var sent := queries[q].(sender := Sent);
      LaterSteps(queries[q]);
      EvolvesOne(queries, q, sent);
      CountNone(round, queries, queries[q := sent]);
      MoveLinked(pending, owner, queries, q, sent);
      queries := queries[q := sent];
    }

    /** All writes of `querySTUN` have failed, and it deletes its transaction; see `DecidedByDeletion`. */
    method Forget(tx: Tx, ghost q: QueryId)
      requires Valid() && q in queries && queries[q].sender.Running? && queries[q].tx == Some(tx)
      modifies this`pending, this`queries
      ensures Valid() && Evolves(old(queries), queries)
      ensures pending == old(pending) - {tx} && queries == Forgotten(old(pending), owner, old(queries), tx, q)
    {
      hide Balanced, Signalled, Minimal, Linked, Forgotten, Evolves;
      ForgetKeeps(round, pending, owner, queries, tx, q);
      queries := Forgotten(pending, owner, queries, tx, q);
      pending := pending - {tx};
    }

    /** The deferred end of a query without a write that succeeded, registered or not. */
    method CountQuit(checkID': nat, ghost q: QueryId)
      requires Valid() && q in queries && q.0 == checkID'
      requires queries[q].sender.Quitting? || (queries[q].sender.Running? && queries[q].tx.None?)
      modifies this`round, this`queries
      ensures Valid() && Evolves(old(queries), queries)
      ensures round == Complete(old(round), checkID')
      ensures queries == old(queries)[q := old(queries)[q].(sender := Quit)]
    {
      hide Balanced, Signalled, Minimal, IsPending, Evolves;
      ghost var quit := queries[q].(sender := Quit);
      LaterSteps(queries[q]);
      EvolvesOne(queries, q, quit);
      CountOnce(round, queries, q, quit);
      MoveLinked(pending, owner, queries, q, quit);
      round := Complete(round, checkID');
      queries := queries[q := quit];
    }

    /** `handleSTUN` takes the transaction of a reply, if it is expected. */
    method TakeReply(tx: Tx) returns (probe: Option<Probe>)
      requires Valid()
      modifies this`pending, this`queries
      ensures Valid() && Evolves(old(queries), queries)
      ensures probe == if tx in old(pending) then Some(old(pending)[tx]) else None
      ensures pending == old(pending) - {tx}
      ensures tx !in old(pending) ==> queries == old(queries)
      ensures tx in old(pending) ==>
                && tx in owner && owner[tx] in old(queries) && old(queries)[owner[tx]].reply.Waiting?
                && probe == Some(Probe(owner[tx].0, old(queries)[owner[tx]].region))
                && queries == old(queries)[owner[tx] := old(queries)[owner[tx]].(reply := InHand)]
    {
      hide Balanced, Signalled, Minimal, Evolves;
      if tx !in pending {
        SameEvolves(queries);
        assert pending - {tx} == pending;
        return None;
      }
      probe := Some(pending[tx]);
      ghost var q := owner[tx];
      ghost var taken := queries[q].(reply := InHand);
      LaterSteps(queries[q]);
      EvolvesOne(queries, q, taken);
      CountNone(round, queries, queries[q := taken]);
      TakeLinked(pending, owner, queries, q, taken, tx);
      pending := pending - {tx};
      queries := queries[q := taken];
    }

    /** `handleSTUN` has read the reply, recorded its latency if it was of use, and counts its target. */
    method CountReply(probe: Probe, ghost q: QueryId)
      requires Valid() && q in queries && queries[q].reply.InHand? && q.0 == probe.checkID
      modifies this`round, this`queries
      ensures Valid() && Evolves(old(queries), queries)
      ensures round == Complete(old(round), probe.checkID)
      ensures queries == old(queries)[q := old(queries)[q].(reply := Counted)]
    {
      hide Balanced, Signalled, Minimal, IsPending, Evolves;
      ghost var counted := queries[q].(reply := Counted);
      LaterSteps(queries[q]);
      EvolvesOne(queries, q, counted);
      CountOnce(round, queries, q, counted);
      MoveLinked(pending, owner, queries, q, counted);
      round := Complete(round, probe.checkID);
      queries := queries[q := counted];
    }

    /** `recordDERPLatency`, for a STUN reply or an HTTPS measurement. */
    method RecordLatency(checkID': nat, region: int, latency: int)
      requires Valid()
      modifies this`round, this`recorded
      ensures Valid()
      ensures round == Record(old(round), checkID', region, latency)
      ensures recorded == old(recorded) +
                if region != 0 && latency > 0 && old(round).Some? && old(round).value.id == checkID'
                then {(region, latency)} else {}
    {
      hide Balanced, Signalled, Linked;
      RecordKeepsBooks(round, queries, checkID', region, latency);
      if region == 0 || latency <= 0 || round.None? || round.value.id != checkID' {
        return;
      }
      RecordKeepsMinimal(round.value.latencies, recorded, region, latency);
      round := Record(round, checkID', region, latency);
      recorded := recorded + {(region, latency)};
    }

    /** Transactions without a reply for a minute are dropped. */
    method Expire(expired: set<Tx>)
      requires Valid()
      modifies this`pending, this`queries
      ensures Valid() && Evolves(old(queries), queries)
      ensures pending == old(pending) - expired && queries == DropReplies(old(queries), expired)
    {
      hide Balanced, Signalled, Minimal, Linked, Evolves;
      DropEvolves(queries, expired);
      DropLinked(pending, owner, queries, expired);
      DropBalanced(round, queries, expired);
      pending := pending - expired;
      queries := DropReplies(queries, expired);
    }

    /** `Open` starts over: no transaction is pending and no round is current. */
    method Reopen()
      requires Valid()
      modifies this`pending, this`round, this`queries
      ensures Valid() && Evolves(old(queries), queries)
      ensures pending == map[] && round == None && queries == DropReplies(old(queries), old(pending).Keys)
    {
      hide Minimal, Linked, Evolves;
      DropEvolves(queries, pending.Keys);
      DropLinked(pending, owner, queries, pending.Keys);
      queries := DropReplies(queries, pending.Keys);
      assert pending - pending.Keys == map[];
      pending, round := map[], None;
    }

    /** The publication of `finishDERPCheck` for round `id`. */
    method Finish(id: nat) returns (report: Option<Report>)
      requires Valid()
      modifies this`round, this`derpLatency, this`published
      ensures Valid()
      ensures report.Some? <==> old(round).Some? && old(round).value.id == id
      ensures report.None? ==> unchanged(this)
      ensures report.Some? ==>
                && round == None && published == old(published) + [report.value]
                && report.value.id == id && report.value.full == old(round).value.full
                && report.value.latencies == old(round).value.latencies && Minimal(report.value.latencies, recorded)
                && Ascending(report.value.regions, IntLe)
                && (forall r :: r in report.value.regions <==> r in report.value.latencies)
                && derpLatency == (if old(round).value.full then map[] else old(derpLatency)) + report.value.latencies
    {
      hide Linked, Minimal;
      if round.None? || round.value.id != id {
        return None;
      }
      var r := round.value;
      var regions := SortedKeys(r.latencies);
      derpLatency := (if r.full then map[] else derpLatency) + r.latencies;
      report := Some(Report(id, r.full, regions, r.latencies));
      published := published + [report.value];
      round := None;
    }
  }

  /** The queries after `q` has deleted its transaction `tx`, found pending for it or not. */
  ghost function Forgotten(pending: Pending, owner: Owners, queries: Queries, tx: Tx,
                           q: QueryId): Queries
    requires q in queries
  {
    if IsPending(pending, owner, tx, q) then queries[q := queries[q].(sender := Quitting, reply := Withdrawn)]
    else DropReplies(queries[q := queries[q].(sender := Quitting)], {tx})
  }

  lemma ForgetKeeps(round: Option<Round>, pending: Pending, owner: Owners, queries: Queries,
                    tx: Tx, q: QueryId)
    requires Balanced(round, queries) && Linked(pending, owner, queries)
    requires q in queries && queries[q].sender.Running? && queries[q].tx == Some(tx)
    ensures var queries' := Forgotten(pending, owner, queries, tx, q);
            && Balanced(round, queries') && Linked(pending - {tx}, owner, queries') && Evolves(queries, queries')
            && queries'.Keys == queries.Keys
  {
    hide Balanced, IsPending, Later;
    WaitingIfPending(pending, owner, queries, tx, q);
    var quitting := queries[q].(sender := Quitting);
    if IsPending(pending, owner, tx, q) {
      var withdrawn := quitting.(reply := Withdrawn);
      TakeLinked(pending, owner, queries, q, withdrawn, tx);
      CountNone(round, queries, queries[q := withdrawn]);
      LaterSteps(queries[q]);
      EvolvesOne(queries, q, withdrawn);
    } else {
      var moved := queries[q := quitting];
      MoveLinked(pending, owner, queries, q, quitting);
      CountNone(round, queries, moved);
      DropLinked(pending, owner, moved, {tx});
      DropBalanced(round, moved, {tx});
      LaterSteps(queries[q]);
      EvolvesOne(queries, q, quitting);
      DropEvolves(moved, {tx});
      EvolvesTwice(queries, moved, DropReplies(moved, {tx}));
    }
  }

  // ----- What may become of a query -----

  /** What a query may become: transactions, final replies and the decision to quit stay. */
  predicate Later(a: Query, b: Query) {
    && (a.tx.Some? ==> b.tx == a.tx)
    && (a.reply.Counted? || a.reply.Withdrawn? || a.reply.Dropped? ==> b.reply == a.reply)
    && (a.reply.InHand? ==> b.reply.InHand? || b.reply.Counted?)
    && (a.sender.Quitting? ==> b.sender.Quitting? || b.sender.Quit?)
    && (a.sender.Quit? || a.sender.Sent? ==> b.sender == a.sender)
  }

  /** The steps the sections take. */
  lemma LaterSteps(a: Query)
    ensures Later(a, a)
    ensures a.tx.None? && a.reply.Unregistered? ==> forall tx :: Later(a, a.(tx := Some(tx), reply := Waiting))
    ensures a.sender.Running? ==> Later(a, a.(sender := Sent)) && Later(a, a.(sender := Quitting))
    ensures a.sender.Running? || a.sender.Quitting? ==> Later(a, a.(sender := Quit))
    ensures a.sender.Running? && a.reply.Waiting? ==> Later(a, a.(sender := Quitting, reply := Withdrawn))
    ensures a.reply.Waiting? ==> Later(a, a.(reply := InHand)) && Later(a, a.(reply := Dropped))
    ensures a.reply.InHand? ==> Later(a, a.(reply := Counted))
  {
  }

  ghost predicate Evolves(queries: Queries, queries': Queries) {
    forall q :: q in queries ==> q in queries' && Later(queries[q], queries'[q])
  }

  lemma EvolvesOne(queries: Queries, q: QueryId, query: Query)
    requires q in queries && Later(queries[q], query)
    ensures Evolves(queries, queries[q := query])
  {
  }

  lemma DropEvolves(queries: Queries, gone: set<Tx>)
    ensures Evolves(queries, DropReplies(queries, gone))
  {
  }

  lemma SameEvolves(queries: Queries)
    ensures Evolves(queries, queries)
  {
  }

  lemma StartEvolves(queries: Queries, id: nat, targets: seq<Target>, useStun: bool)
    requires forall q :: q in queries ==> q.0 < id
    ensures Evolves(queries, queries + NewQueries(id, targets, useStun))
  {
  }

  lemma RegisterEvolves(queries: Queries, tx: Tx, q: QueryId)
    requires q in queries && queries[q].tx.None? && queries[q].reply.Unregistered?
    ensures Evolves(queries, Registered(queries, tx, q))
  {
    LaterSteps(queries[q]);
    DropEvolves(queries, {tx});
    hide Later;
  }

  lemma EvolvesTwice(a: Queries, b: Queries, d: Queries)
    requires Evolves(a, b) && Evolves(b, d)
    ensures Evolves(a, d)
  {
    forall q | q in a ensures q in d && Later(a[q], d[q]) {
      assert Later(a[q], b[q]) && Later(b[q], d[q]);
    }
  }

  /**
   * Whether a query that gives up is counted twice is decided when it deletes its transaction: it
   * will be exactly if the transaction is not pending for it then and was not dropped. Until the
   * reply at work is through, and however the other sections come, this stays so.
   */
  lemma DecidedByDeletion(pending: Pending, owner: Owners, queries: Queries, tx: Tx, q: QueryId,
                          later: Queries)
    requires Linked(pending, owner, queries) && q in queries && queries[q].sender.Running? && queries[q].tx == Some(tx)
    requires Evolves(Forgotten(pending, owner, queries, tx, q), later)
    requires q in later && later[q].sender.Quit? && !later[q].reply.InHand? && later[q].Ok()
    ensures later[q].Calls() == 2 <==> !IsPending(pending, owner, tx, q) && !queries[q].reply.Dropped?
    ensures later[q].Calls() >= 1
  {
    hide IsPending;
    WaitingIfPending(pending, owner, queries, tx, q);
    var queries' := Forgotten(pending, owner, queries, tx, q);
    assert q in queries' && Later(queries'[q], later[q]);
  }

  /** A round of two targets, with a request about to be sent to the first. */
  method TwoInRound() returns (p: Prober)
    ensures fresh(p) && p.Valid()
    ensures p.round == Some(Round(1, false, [Target(7, true), Target(8, true)], 2, map[], 0))
    ensures p.pending == map[[1] := Probe(1, 7)] && [1] in p.owner && p.owner[[1]] == (1, 0)
    ensures (1, 0) in p.queries && p.queries[(1, 0)] == Query(7, Some([1]), Running, Waiting)
    ensures (1, 1) in p.queries && p.queries[(1, 1)] == Query(8, None, Running, Unregistered)
  {
    hide StunTargets, Balanced, Signalled, Linked, Minimal, Evolves;
    var targets := [Target(7, true), Target(8, true)];
    TwoTargets(targets);
    p := new Prober();
    var remaining := p.StartRound(targets, false, true);
    p.RegisterQuery([1], Probe(1, 7), (1, 0));
  }

  /** A run in which one target is counted for both: the round is signalled as done with its other target still open. */
  method AnsweredThenGivenUp() returns (p: Prober)
    ensures p.Valid() && p.round.Some? && p.round.value.id == 1
    ensures p.round.value.remaining == 0 && p.round.value.signals == 1
    ensures (1, 1) in Open(p.queries, 1) && !Accounts(p.round, p.queries)
  {
    hide Balanced, Signalled, Linked, Minimal, Evolves, Open;
    p := TwoInRound();
    var probe := p.TakeReply([1]);
    p.Forget([1], (1, 0));
    p.CountQuit(1, (1, 0));
    p.CountReply(probe.value, (1, 0));
    StillOpen(p.queries, (1, 1));
  }

  lemma StillOpen(queries: Queries, q: QueryId)
    requires q in queries && queries[q].Calls() == 0
    ensures q in Open(queries, q.0) && |Open(queries, q.0)| > 0
  {
  }

  lemma TwoTargets(targets: seq<Target>)
    requires |targets| == 2 && targets[0].hasStun && targets[1].hasStun
    ensures |StunTargets(1, targets, true)| == 2
    ensures forall q :: q in StunTargets(1, targets, true) <==> q.0 == 1 && q.1 < 2
  {
    CountOne(1, targets, 0);
    CountOne(1, targets, 1);
    assert targets[..2] == targets;
  }

  lemma WaitingIfPending(pending: Pending, owner: Owners, queries: Queries, tx: Tx, q: QueryId)
    requires Linked(pending, owner, queries) && q in queries && queries[q].tx == Some(tx)
    ensures queries[q].reply.Waiting? <==> IsPending(pending, owner, tx, q)
  {
  }

  method SortedKeys(m: map<int, int>) returns (keys: seq<int>)
    ensures Ascending(keys, IntLe)
    ensures forall k :: k in keys <==> k in m
  {
    assert TotalOrder(IntLe);
    keys := SortSet(m.Keys, IntLe);
  }
}
