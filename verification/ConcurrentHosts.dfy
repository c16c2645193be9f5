/** The read models with one row for each host under concurrency: workers may take the events of an
    agent in any order and at the same time. */
module ConcurrentHosts {
  import opened Projection
  import opened Columns
  import opened HostsProjectors
  import T = Transactions
  import L = Linearization

  type Rows = T.Tables<Columns.Row, ()>

  /** The handler of one type of event on the row of its agent alone. */
  function OnAgentRow(sch: Schema, decode: Columns.Decode, kind: Kind): T.Local<Columns.Row, ()>
    requires kind in sch.owned
  {
    (e: Event, row: Option<Columns.Row>) =>
      if e.kind != kind || decode(kind, e.payload).None? then T.Fails
      else
        var values := sch.zero + decode(kind, e.payload).value;
        T.Writes(Some(if row.Some? then Overwritten(row.value, values, sch.owned[kind]) else values), None)
  }

  function OneRowEach(p: string, sch: Schema, decode: Columns.Decode): T.Locals<Columns.Row, ()> {
    map[p := map kind | kind in sch.owned :: OnAgentRow(sch, decode, kind)]
  }

  // ---------------------------------------------------------------- the table and its rows

  /** The table of the projector p. */
  function TableOf(p: string, t: Rows): Columns.Table {
    map k | k in t.rows && k.projector == p :: k.agent := t.rows[k]
  }

  function View(p: string, db: Db<Rows>): Db<Columns.Table> {
    Db(db.cursors, TableOf(p, db.tables))
  }

  lemma TableHas(p: string, t: Rows, agent: string)
    ensures agent in TableOf(p, t) <==> Key(p, agent) in t.rows
    ensures agent in TableOf(p, t) ==> TableOf(p, t)[agent] == t.rows[Key(p, agent)]
  {
    if Key(p, agent) in t.rows {
      assert Key(p, agent).agent == agent;
    }
  }

  lemma TableWith(p: string, t: Rows, agent: string, row: Columns.Row)
    ensures TableOf(p, T.Written(t, Key(p, agent), Some(row), None)) == TableOf(p, t)[agent := row]
  {
    var after := T.Written(t, Key(p, agent), Some(row), None);
    forall other ensures other in TableOf(p, after) <==> other in TableOf(p, t)[agent := row]
                 ensures other in TableOf(p, after) ==> TableOf(p, after)[other] == TableOf(p, t)[agent := row][other]
    {
      TableHas(p, after, other);
      TableHas(p, t, other);
    }
  }

  /** The handler on the whole table is the handler on the agent's row. */
  lemma HandledView(p: string, sch: Schema, decode: Columns.Decode, t: Rows, c: Call)
    requires c.projector == p && c.e.kind in sch.owned
    ensures T.Registered(OneRowEach(p, sch, decode), c) && Interested(Registered(p, sch, decode), c)
    ensures match OneRowEach(p, sch, decode)[p][c.e.kind](c.e, T.RowAt(t, KeyOf(c)))
            case Fails => Handled(Registered(p, sch, decode), c, TableOf(p, t)) == None
            case Writes(row, shared) =>
              && row.Some? && shared.None?
              && Handled(Registered(p, sch, decode), c, TableOf(p, t)) == Some(TableOf(p, t)[c.e.agent := row.value])
  {
    TableHas(p, t, c.e.agent);
  }

  lemma ProjectedView(p: string, sch: Schema, decode: Columns.Decode, db: Db<Rows>, c: Call)
    ensures View(p, Projected(T.Lifted(OneRowEach(p, sch, decode)), db, c)) ==
            Projected(Registered(p, sch, decode), View(p, db), c)
  {
    var reg := OneRowEach(p, sch, decode);
    L.LiftedIsRegistered(reg, c);
    if T.Registered(reg, c) {
      L.HandledIsLocal(reg, c, db.tables);
      HandledView(p, sch, decode, db.tables, c);
      match reg[p][c.e.kind](c.e, T.RowAt(db.tables, KeyOf(c)))
      case Fails =>
      case Writes(row, _) => TableWith(p, db.tables, c.e.agent, row.value);
    }
  }

  lemma {:induction false} AfterView(p: string, sch: Schema, decode: Columns.Decode, db: Db<Rows>, calls: seq<Call>)
    ensures View(p, After(T.Lifted(OneRowEach(p, sch, decode)), db, calls)) ==
            After(Registered(p, sch, decode), View(p, db), calls)
  {
    if calls != [] {
      var n := |calls| - 1;
      AfterView(p, sch, decode, db, calls[..n]);
      ProjectedView(p, sch, decode, After(T.Lifted(OneRowEach(p, sch, decode)), db, calls[..n]), calls[n]);
    }
  }

  // ---------------------------------------------------------------- columns

  /** What an agent has in a column. */
  function ColumnOf(sch: Schema, t: Rows, k: Key, c: Column): Value
    requires c in sch.zero
  {
    if k in t.rows && c in t.rows[k] then t.rows[k][c] else sch.zero[c]
  }

  /** The column of k's agent holds the value of call last, or else what it held at the start. */
  predicate HoldsLast(sch: Schema, decode: Columns.Decode, start: Rows, t: Rows, k: Key, last: Option<Call>, kind: Kind,
      c: Column)
    requires c in sch.zero
  {
    match last
    case Some(last) =>
      && decode(kind, last.e.payload).Some? && c in decode(kind, last.e.payload).value
      && ColumnOf(sch, t, k, c) == decode(kind, last.e.payload).value[c]
    case None => ColumnOf(sch, t, k, c) == ColumnOf(sch, start, k, c)
  }

  lemma ColumnByTable(sch: Schema, p: string, t: Rows, agent: string, c: Column)
    requires ValidTable(sch, TableOf(p, t)) && c in sch.zero
    ensures ColumnOf(sch, t, Key(p, agent), c) == ValueAt(sch, TableOf(p, t), agent, c)
  {
    TableHas(p, t, agent);
  }

  lemma SameRowSameColumn(sch: Schema, t: Rows, t': Rows, k: Key, c: Column)
    requires T.RowAt(t, k) == T.RowAt(t', k) && c in sch.zero
    ensures ColumnOf(sch, t, k, c) == ColumnOf(sch, t', k, c)
  {
  }

  lemma SequentialColumn(p: string, sch: Schema, decode: Columns.Decode, db: Db<Rows>, calls: seq<Call>, agent: string,
      kind: Kind, c: Column)
    requires ValidSchema(sch) && Decodes(sch, decode) && ValidTable(sch, TableOf(p, db.tables))
    requires kind in sch.owned && c in sch.owned[kind] && c in sch.zero
    ensures HoldsLast(sch, decode, db.tables, After(T.Lifted(OneRowEach(p, sch, decode)), db, calls).tables,
      Key(p, agent), LastApplied(Registered(p, sch, decode), View(p, db), calls, agent, kind), kind, c)
  {
    var reg, after := Registered(p, sch, decode), After(T.Lifted(OneRowEach(p, sch, decode)), db, calls);
    AfterView(p, sch, decode, db, calls);
    RegisteredProjects(p, sch, decode);
    ColumnsAreOfLastApplied(reg, p, sch, decode, View(p, db), calls, agent, kind, c);
    ColumnByTable(sch, p, after.tables, agent, c);
    ColumnByTable(sch, p, db.tables, agent, c);
  }

  /** Whatever the interleaving: with the agent's cursor row there, each column holds at every moment the
      value of the last event of the type that owns it that sequential calls, in the order in which
      the transactions ended, apply; or what it held at the start. */
  lemma ColumnsConcurrently(p: string, sch: Schema, decode: Columns.Decode, db: Db<Rows>, actions: seq<T.Action>,
      agent: string, kind: Kind, c: Column)
    requires ValidSchema(sch) && Decodes(sch, decode) && ValidTable(sch, TableOf(p, db.tables))
    requires kind in sch.owned && c in sch.owned[kind] && c in sch.zero && Key(p, agent) in db.cursors
    requires T.Reach(OneRowEach(p, sch, decode), T.Start(db), actions).Some?
    ensures var st := T.Reach(OneRowEach(p, sch, decode), T.Start(db), actions).value;
      HoldsLast(sch, decode, db.tables, st.db.tables, Key(p, agent),
        LastApplied(Registered(p, sch, decode), View(p, db), st.log, agent, kind), kind, c)
  {
    var reg, k := OneRowEach(p, sch, decode), Key(p, agent);
    var st := T.Reach(reg, T.Start(db), actions).value;
    L.PresentFromStart(reg, db, actions, k);
    L.KeyIsSequential(reg, db, actions, k);
    SequentialColumn(p, sch, decode, db, st.log, agent, kind, c);
    assert L.At(st.db, k).row == L.At(After(T.Lifted(reg), db, st.log), k).row;
    SameRowSameColumn(sch, st.db.tables, After(T.Lifted(reg), db, st.log).tables, k, c);
  }

  lemma HostsConcurrently(codecs: Codecs, db: Db<Rows>, actions: seq<T.Action>, agent: string, kind: Kind, c: Column)
    requires kind in HOSTS.owned && c in HOSTS.owned[kind] && c in HOSTS.zero && Key("hosts", agent) in db.cursors
    requires ValidTable(HOSTS, TableOf("hosts", db.tables))
    requires T.Reach(OneRowEach("hosts", HOSTS, HostsDecode(codecs)), T.Start(db), actions).Some?
    ensures var st := T.Reach(OneRowEach("hosts", HOSTS, HostsDecode(codecs)), T.Start(db), actions).value;
      HoldsLast(HOSTS, HostsDecode(codecs), db.tables, st.db.tables, Key("hosts", agent),
        LastApplied(Registered("hosts", HOSTS, HostsDecode(codecs)), View("hosts", db), st.log, agent, kind), kind, c)
  {
    HostsSchema(codecs);
    ColumnsConcurrently("hosts", HOSTS, HostsDecode(codecs), db, actions, agent, kind, c);
  }

  lemma TelemetryConcurrently(codecs: Codecs, db: Db<Rows>, actions: seq<T.Action>, agent: string, kind: Kind,
      c: Column)
    requires kind in TELEMETRY.owned && c in TELEMETRY.owned[kind] && c in TELEMETRY.zero
    requires Key("host_telemetry", agent) in db.cursors && ValidTable(TELEMETRY, TableOf("host_telemetry", db.tables))
    requires T.Reach(OneRowEach("host_telemetry", TELEMETRY, TelemetryDecode(codecs)), T.Start(db), actions).Some?
    ensures var p, decode := "host_telemetry", TelemetryDecode(codecs);
      var st := T.Reach(OneRowEach(p, TELEMETRY, decode), T.Start(db), actions).value;
      HoldsLast(TELEMETRY, decode, db.tables, st.db.tables, Key(p, agent),
        LastApplied(Registered(p, TELEMETRY, decode), View(p, db), st.log, agent, kind), kind, c)
  {
    TelemetrySchema(codecs);
    ColumnsConcurrently("host_telemetry", TELEMETRY, TelemetryDecode(codecs), db, actions, agent, kind, c);
  }
}
