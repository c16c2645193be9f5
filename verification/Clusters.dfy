/** The projector of clusters: one row for each cluster, which the agents of its nodes share. */
module Clusters {
  import opened Projection
  import opened Transactions
  import opened Linearization

  /** The read model of a cluster. How it is computed from the payload is not part of this model,
      except that a cluster without an id is an error. */
  datatype Cluster = Cluster(
    id: string, name: string, clusterType: string, sids: seq<string>, resourcesNumber: int, hostsNumber: int,
    details: string)

  type Decode = string -> Option<Cluster>

  const PROJECTOR := "clusters"

  /** The agents have no rows of their own here. */
  type NoRow = ()

  function Handle(decode: Decode): Local<NoRow, Cluster> {
    (e: Event, row: Option<NoRow>) =>
      match decode(e.payload)
      case None => Fails
      case Some(cluster) => if cluster.id == "" then Fails else Writes(row, Some(SharedRow(cluster.id, cluster)))
  }

  function Projector(decode: Decode): Locals<NoRow, Cluster> {
    map[PROJECTOR := map[ClusterDiscovery := Handle(decode)]]
  }

  lemma OnlyClusterEvents(decode: Decode, c: Call)
    ensures Registered(Projector(decode), c) <==> c.projector == "clusters" && c.e.kind == ClusterDiscovery
  {
  }

  /** The calls whose transactions the actions commit, in that order. */
  function Committed<R, C>(reg: Locals<R, C>, st: State<R, C>, actions: seq<Action>): seq<Call>
    requires Reach(reg, st, actions).Some?
  {
    if actions == [] then []
    else
      var n := |actions| - 1;
      Committed(reg, st, actions[..n]) +
      match actions[n]
      case Commit(i) => [Reach(reg, st, actions[..n]).value.txs[i].call]
      case _ => []
  }

  /** The last of the calls that names the cluster. */
  function LastFor(decode: Decode, calls: seq<Call>, id: string): Option<Cluster> {
    if calls == [] then None
    else
      var n := |calls| - 1;
      if decode(calls[n].e.payload).Some? && decode(calls[n].e.payload).value.id == id
      then decode(calls[n].e.payload)
      else LastFor(decode, calls[..n], id)
  }

  /** What a handler has computed is the cluster of its event. */
  predicate ReadyWithCluster(decode: Decode, tx: Tx<NoRow, Cluster>) {
    tx.phase.Ready? ==>
      var cluster := decode(tx.call.e.payload);
      cluster.Some? && cluster.value.id != "" && tx.phase.shared == Some(SharedRow(cluster.value.id, cluster.value))
  }

  ghost predicate AllReady(decode: Decode, st: State<NoRow, Cluster>) {
    forall i | 0 <= i < |st.txs| :: ReadyWithCluster(decode, st.txs[i])
  }

  lemma ReadyStep(decode: Decode, st: State<NoRow, Cluster>, a: Action)
    requires AllReady(decode, st) && Enabled(Projector(decode), st, a)
    ensures AllReady(decode, Do(Projector(decode), st, a))
  {
    var st' := Do(Projector(decode), st, a);
    forall i | 0 <= i < |st'.txs| ensures ReadyWithCluster(decode, st'.txs[i]) {
      if i < |st.txs| {
        assert ReadyWithCluster(decode, st.txs[i]);
      }
    }
  }

  lemma {:induction false} ReadyHolds(decode: Decode, db: Db<Tables<NoRow, Cluster>>, actions: seq<Action>)
    requires Reach(Projector(decode), Start(db), actions).Some?
    ensures AllReady(decode, Reach(Projector(decode), Start(db), actions).value)
  {
    if actions != [] {
      var n := |actions| - 1;
      ReadyHolds(decode, db, actions[..n]);
      ReadyStep(decode, Reach(Projector(decode), Start(db), actions[..n]).value, actions[n]);
    }
  }

  /** Only a commit changes a shared row, and it sets that of its event's cluster. */
  lemma SharedStep(decode: Decode, st: State<NoRow, Cluster>, a: Action)
    requires AllReady(decode, st) && Enabled(Projector(decode), st, a)
    ensures !a.Commit? ==> Do(Projector(decode), st, a).db.tables.shared == st.db.tables.shared
    ensures a.Commit? ==>
      var cluster := decode(st.txs[a.i].call.e.payload);
      && cluster.Some? && cluster.value.id != ""
      && Do(Projector(decode), st, a).db.tables.shared == st.db.tables.shared[cluster.value.id := cluster.value]
  {
    if a.Commit? {
      assert ReadyWithCluster(decode, st.txs[a.i]);
    }
  }

  /** A cluster without an id is never stored, under any interleaving. */
  lemma {:induction false} NamelessIsNotStored(decode: Decode, db: Db<Tables<NoRow, Cluster>>, actions: seq<Action>)
    requires Reach(Projector(decode), Start(db), actions).Some?
    ensures var after := Reach(Projector(decode), Start(db), actions).value.db.tables.shared;
      ("" in after <==> "" in db.tables.shared) && ("" in after ==> after[""] == db.tables.shared[""])
  {
    if actions != [] {
      var n := |actions| - 1;
      NamelessIsNotStored(decode, db, actions[..n]);
      ReadyHolds(decode, db, actions[..n]);
      SharedStep(decode, Reach(Projector(decode), Start(db), actions[..n]).value, actions[n]);
    }
  }

  lemma LastForOneMore(decode: Decode, calls: seq<Call>, c: Call, id: string)
    ensures LastFor(decode, calls + [c], id) ==
      if decode(c.e.payload).Some? && decode(c.e.payload).value.id == id then decode(c.e.payload)
      else LastFor(decode, calls, id)
  {
    assert (calls + [c])[..|calls|] == calls;
  }

  /** The row of the cluster is the last one that the calls name, or what it was before. */
  predicate RowIsOfLast(
      decode: Decode, before: map<string, Cluster>, shared: map<string, Cluster>, calls: seq<Call>, id: string)
  {
    match LastFor(decode, calls, id)
    case Some(cluster) => id in shared && shared[id] == cluster
    case None => (id in shared <==> id in before) && (id in shared ==> shared[id] == before[id])
  }

  lemma CommittedStep<R, C>(reg: Locals<R, C>, st: State<R, C>, actions: seq<Action>)
    requires actions != [] && Reach(reg, st, actions).Some?
    ensures var n := |actions| - 1;
      var before := Committed(reg, st, actions[..n]);
      Committed(reg, st, actions) ==
      if actions[n].Commit? then before + [Reach(reg, st, actions[..n]).value.txs[actions[n].i].call] else before
  {
  }

  lemma RowStep(decode: Decode, before: map<string, Cluster>, st: State<NoRow, Cluster>, a: Action, calls: seq<Call>,
      id: string)
    requires AllReady(decode, st) && Enabled(Projector(decode), st, a)
    requires RowIsOfLast(decode, before, st.db.tables.shared, calls, id)
    ensures RowIsOfLast(decode, before, Do(Projector(decode), st, a).db.tables.shared,
      if a.Commit? then calls + [st.txs[a.i].call] else calls, id)
  {
    SharedStep(decode, st, a);
    if a.Commit? {
      LastForOneMore(decode, calls, st.txs[a.i].call, id);
    }
  }

  /** Many agents, every interleaving, with or without cursor rows: the row of a cluster is the one of
      the last transaction that committed it. Among agents this need not be the newest event, as
      each has its own cursor. */
  lemma {:induction false} ClusterRowIsOfLastCommitted(decode: Decode, db: Db<Tables<NoRow, Cluster>>,
      actions: seq<Action>, id: string)
    requires Reach(Projector(decode), Start(db), actions).Some?
    ensures RowIsOfLast(decode, db.tables.shared, Reach(Projector(decode), Start(db), actions).value.db.tables.shared,
      Committed(Projector(decode), Start(db), actions), id)
  {
    if actions != [] {
      var n := |actions| - 1;
      ClusterRowIsOfLastCommitted(decode, db, actions[..n], id);
      ReadyHolds(decode, db, actions[..n]);
      CommittedStep(Projector(decode), Start(db), actions);
      RowStep(decode, db.tables.shared, Reach(Projector(decode), Start(db), actions[..n]).value, actions[n],
        Committed(Projector(decode), Start(db), actions[..n]), id);
    }
  }

  // ---------------------------------------------------------------- the newest event of a cluster

  predicate Names(decode: Decode, c: Call, id: string) {
    decode(c.e.payload).Some? && decode(c.e.payload).value.id == id
  }

  /** Position i has the last call that names the cluster. */
  predicate IsLastFor(decode: Decode, calls: seq<Call>, id: string, i: nat) {
    i < |calls| && Names(decode, calls[i], id) && forall j | i < j < |calls| :: !Names(decode, calls[j], id)
  }

  lemma {:induction false} LastForIsLast(decode: Decode, calls: seq<Call>, id: string, i: nat)
    requires IsLastFor(decode, calls, id, i)
    ensures LastFor(decode, calls, id) == decode(calls[i].e.payload)
  {
    var n := |calls| - 1;
    if i < n {
      assert !Names(decode, calls[n], id);
      assert calls[..n][i] == calls[i];
      LastForIsLast(decode, calls[..n], id, i);
    }
  }

  lemma {:induction false} SomeLastFor(decode: Decode, calls: seq<Call>, id: string, i: nat) returns (j: nat)
    requires i < |calls| && Names(decode, calls[i], id)
    ensures i <= j && IsLastFor(decode, calls, id, j)
    decreases |calls| - i
  {
    if k: nat :| i < k < |calls| && Names(decode, calls[k], id) {
      j := SomeLastFor(decode, calls, id, k);
    } else {
      j := i;
    }
  }

  /** Under every interleaving a committed event, such as the newest one of the cluster, is what the row
      shows if and only if no event with another reading of the cluster was committed after it. */
  lemma RowIsOfEventExactly(decode: Decode, db: Db<Tables<NoRow, Cluster>>, actions: seq<Action>, id: string, i: nat)
    requires Reach(Projector(decode), Start(db), actions).Some?
    requires var calls := Committed(Projector(decode), Start(db), actions);
      && i < |calls| && Names(decode, calls[i], id)
      && forall j | i < j < |calls| && Names(decode, calls[j], id) ::
        decode(calls[j].e.payload) != decode(calls[i].e.payload)
    ensures var calls := Committed(Projector(decode), Start(db), actions);
      var shared := Reach(Projector(decode), Start(db), actions).value.db.tables.shared;
      && id in shared
      && (shared[id] == decode(calls[i].e.payload).value <==> IsLastFor(decode, calls, id, i))
  {
    var calls := Committed(Projector(decode), Start(db), actions);
    ClusterRowIsOfLastCommitted(decode, db, actions, id);
    var j := SomeLastFor(decode, calls, id, i);
    LastForIsLast(decode, calls, id, j);
    assert i < j ==> Names(decode, calls[j], id);
  }

  /** Two agents of one cluster, whose events name it and are both new to their cursors. */
  predicate NodesOfOne(decode: Decode, db: Db<Tables<NoRow, Cluster>>, older: Call, newer: Call, id: string) {
    && id != "" && Names(decode, older, id) && Names(decode, newer, id)
    && older.projector == PROJECTOR && older.e.kind == ClusterDiscovery && Cursor(db, KeyOf(older)) < older.e.id
    && newer.projector == PROJECTOR && newer.e.kind == ClusterDiscovery && Cursor(db, KeyOf(newer)) < newer.e.id
    && older.e.agent != newer.e.agent && older.e.id < newer.e.id
  }

  /** The newer event of one node and then the older one of another, one after the other: nothing is
      concurrent, both are applied, and the row of the cluster is that of the older. */
  lemma OlderEventStays(decode: Decode, db: Db<Tables<NoRow, Cluster>>, older: Call, newer: Call, id: string)
    requires NodesOfOne(decode, db, older, newer, id)
    ensures var last := Reach(Projector(decode), Start(db), Alone(0, newer) + Alone(1, older));
      && last.Some? && Quiet(last.value) && last.value.log == [newer, older]
      && Cursor(last.value.db, KeyOf(newer)) == newer.e.id && Cursor(last.value.db, KeyOf(older)) == older.e.id
      && id in last.value.db.tables.shared
      && last.value.db.tables.shared[id] == decode(older.e.payload).value
  {
    var reg := Projector(decode);
    var st1 := AloneReaches(reg, Start(db), newer);
    assert KeyOf(older) != KeyOf(newer);
    assert Cursor(st1.db, KeyOf(older)) == Cursor(db, KeyOf(older));
    var st2 := AloneReaches(reg, st1, older);
    ReachOfConcat(reg, Start(db), Alone(0, newer), Alone(1, older));
    assert st2.log == [newer, older];
  }
}
