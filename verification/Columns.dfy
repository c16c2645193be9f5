/** Read models with one row for each agent, whose columns belong to different types of events. An
    event inserts the agent's row, with zero values in the columns that are not its own, or updates
    its own columns of the row that is there. */
module Columns {
  import opened Projection

  datatype Value = Text(text: string) | Texts(texts: seq<string>) | Number(number: int)

  /** The data columns of hosts and of host_telemetry. */
  datatype Column =
    | Name | IPAddresses | AgentVersion | CloudProvider | ClusterID | ClusterName
    | SLESVersion | HostName | CPUCount | SocketCount | TotalMemoryMB

  type Row = map<Column, Value>
  type Table = map<string, Row>

  function Overwritten(old': Row, row: Row, columns: set<Column>): Row {
    map c | c in old' :: if c in columns && c in row then row[c] else old'[c]
  }

  /** Insert the row, or on a conflict with the agent's row update the given columns. */
  function Upsert(t: Table, agent: string, row: Row, columns: set<Column>): Table {
    t[agent := if agent in t then Overwritten(t[agent], row, columns) else row]
  }

  /** The zero row, and for each type of event the columns that it owns. */
  datatype Schema = Schema(zero: Row, owned: map<Kind, set<Column>>)

  ghost predicate ValidSchema(sch: Schema) {
    && (forall kind | kind in sch.owned :: sch.owned[kind] <= sch.zero.Keys)
    && forall kind, kind' | kind in sch.owned && kind' in sch.owned && kind != kind' ::
      sch.owned[kind] !! sch.owned[kind']
  }

  /** Gives the values that an event has for the columns of its type, or an error. */
  type Decode = (Kind, string) -> Option<Row>

  ghost predicate Decodes(sch: Schema, decode: Decode) {
    forall kind, payload | kind in sch.owned && decode(kind, payload).Some? ::
      decode(kind, payload).value.Keys == sch.owned[kind]
  }

  /** What every handler of such a read model does. */
  function Store(sch: Schema, decode: Decode, e: Event, t: Table): Option<Table>
    requires e.kind in sch.owned
  {
    match decode(e.kind, e.payload)
    case None => None
    case Some(values) => Some(Upsert(t, e.agent, sch.zero + values, sch.owned[e.kind]))
  }

  predicate ValidTable(sch: Schema, t: Table) {
    forall agent | agent in t :: t[agent].Keys == sch.zero.Keys
  }

  /** What an agent has in a column: zero as long as it has no row. */
  function ValueAt(sch: Schema, t: Table, agent: string, c: Column): Value
    requires ValidTable(sch, t) && c in sch.zero
  {
    if agent in t then t[agent][c] else sch.zero[c]
  }

  lemma StoredRows(sch: Schema, decode: Decode, e: Event, t: Table)
    requires ValidSchema(sch) && Decodes(sch, decode) && ValidTable(sch, t)
    requires e.kind in sch.owned && Store(sch, decode, e, t).Some?
    ensures ValidTable(sch, Store(sch, decode, e, t).value)
    ensures Store(sch, decode, e, t).value.Keys == t.Keys + {e.agent}
  {
    assert (sch.zero + decode(e.kind, e.payload).value).Keys == sch.zero.Keys;
  }

  /** What one event leaves in a column. */
  lemma StoredColumn(sch: Schema, decode: Decode, e: Event, t: Table, agent: string, c: Column)
    requires ValidSchema(sch) && Decodes(sch, decode) && ValidTable(sch, t)
    requires e.kind in sch.owned && Store(sch, decode, e, t).Some? && c in sch.zero
    ensures ValidTable(sch, Store(sch, decode, e, t).value)
    ensures ValueAt(sch, Store(sch, decode, e, t).value, agent, c) ==
      if agent == e.agent && c in sch.owned[e.kind]
      then decode(e.kind, e.payload).value[c]
      else ValueAt(sch, t, agent, c)
  {
    StoredRows(sch, decode, e, t);
  }

  lemma TablesEqual(sch: Schema, t: Table, t': Table)
    requires ValidTable(sch, t) && ValidTable(sch, t') && t.Keys == t'.Keys
    requires forall agent, c | c in sch.zero :: ValueAt(sch, t, agent, c) == ValueAt(sch, t', agent, c)
    ensures t == t'
  {
    forall agent | agent in t ensures t[agent] == t'[agent] {
      forall c | c in sch.zero ensures t[agent][c] == t'[agent][c] {
        assert ValueAt(sch, t, agent, c) == ValueAt(sch, t', agent, c);
      }
    }
  }

  /** The table after two events. */
  ghost predicate IsAfterBoth(sch: Schema, decode: Decode, t: Table, e: Event, e': Event, both: Table)
    requires ValidTable(sch, t) && e.kind in sch.owned && e'.kind in sch.owned
  {
    && decode(e.kind, e.payload).Some? && decode(e'.kind, e'.payload).Some?
    && ValidTable(sch, both) && both.Keys == t.Keys + {e.agent, e'.agent}
    && forall agent, c | c in sch.zero :: ValueAt(sch, both, agent, c) ==
         if agent == e'.agent && c in sch.owned[e'.kind] && c in decode(e'.kind, e'.payload).value
         then decode(e'.kind, e'.payload).value[c]
         else if agent == e.agent && c in sch.owned[e.kind] && c in decode(e.kind, e.payload).value
         then decode(e.kind, e.payload).value[c]
         else ValueAt(sch, t, agent, c)
  }

  lemma StoredBoth(sch: Schema, decode: Decode, t: Table, e: Event, e': Event, first: Table)
    requires ValidSchema(sch) && Decodes(sch, decode) && ValidTable(sch, t)
    requires e.kind in sch.owned && e'.kind in sch.owned
    requires Store(sch, decode, e, t) == Some(first) && Store(sch, decode, e', t).Some?
    ensures var both := Store(sch, decode, e', first);
      both.Some? && IsAfterBoth(sch, decode, t, e, e', both.value)
  {
    StoredRows(sch, decode, e, t);
    StoredRows(sch, decode, e', first);
    forall agent, c | c in sch.zero
      ensures ValueAt(sch, Store(sch, decode, e', first).value, agent, c) ==
        if agent == e'.agent && c in sch.owned[e'.kind] then decode(e'.kind, e'.payload).value[c]
        else ValueAt(sch, first, agent, c)
      ensures ValueAt(sch, first, agent, c) ==
        if agent == e.agent && c in sch.owned[e.kind] then decode(e.kind, e.payload).value[c]
        else ValueAt(sch, t, agent, c)
    {
      StoredColumn(sch, decode, e, t, agent, c);
      StoredColumn(sch, decode, e', first, agent, c);
    }
  }

  lemma AfterBothIsOne(sch: Schema, decode: Decode, t: Table, e: Event, e': Event, both: Table, both': Table)
    requires ValidSchema(sch) && ValidTable(sch, t)
    requires e.kind in sch.owned && e'.kind in sch.owned && (e.kind != e'.kind || e.agent != e'.agent)
    requires IsAfterBoth(sch, decode, t, e, e', both) && IsAfterBoth(sch, decode, t, e', e, both')
    ensures both == both'
  {
    forall agent, c | c in sch.zero ensures ValueAt(sch, both, agent, c) == ValueAt(sch, both', agent, c) {
    }
    TablesEqual(sch, both, both');
  }

  /** Handlers of different types, or for different agents, can be run in either order. */
  lemma HandlersCommute(sch: Schema, decode: Decode, t: Table, e: Event, e': Event)
    requires ValidSchema(sch) && Decodes(sch, decode) && ValidTable(sch, t)
    requires e.kind in sch.owned && e'.kind in sch.owned && (e.kind != e'.kind || e.agent != e'.agent)
    requires Store(sch, decode, e, t).Some? && Store(sch, decode, e', t).Some?
    ensures var first, second := Store(sch, decode, e, t).value, Store(sch, decode, e', t).value;
      Store(sch, decode, e', first) == Store(sch, decode, e, second) != None
  {
    var first, second := Store(sch, decode, e, t).value, Store(sch, decode, e', t).value;
    StoredBoth(sch, decode, t, e, e', first);
    StoredBoth(sch, decode, t, e', e, second);
    AfterBothIsOne(sch, decode, t, e, e', Store(sch, decode, e', first).value, Store(sch, decode, e, second).value);
  }

  // ---------------------------------------------------------------- runs

  /** The registry has one projector, which keeps such a read model. */
  ghost predicate Projects(reg: Registry<Table>, p: string, sch: Schema, decode: Decode) {
    && reg.Keys == {p} && reg[p].Keys == sch.owned.Keys
    && forall c: Call, t: Table | Interested(reg, c) :: Handled(reg, c, t) == Store(sch, decode, c.e, t)
  }

  /** The last applied call for an agent with an event of the given type. */
  function LastApplied(reg: Registry<Table>, db: Db<Table>, calls: seq<Call>, agent: string, kind: Kind): Option<Call> {
    if calls == [] then None
    else
      var n := |calls| - 1;
      if Applies(reg, After(reg, db, calls[..n]), calls[n]) && calls[n].e.agent == agent && calls[n].e.kind == kind
      then Some(calls[n])
      else LastApplied(reg, db, calls[..n], agent, kind)
  }

  lemma {:induction false} TableStaysValid(
      reg: Registry<Table>, p: string, sch: Schema, decode: Decode, db: Db<Table>, calls: seq<Call>)
    requires ValidSchema(sch) && Decodes(sch, decode) && Projects(reg, p, sch, decode) && ValidTable(sch, db.tables)
    ensures ValidTable(sch, After(reg, db, calls).tables)
  {
    if calls != [] {
      var n := |calls| - 1;
      var before := After(reg, db, calls[..n]);
      TableStaysValid(reg, p, sch, decode, db, calls[..n]);
      if Applies(reg, before, calls[n]) {
        assert Handled(reg, calls[n], before.tables) == Store(sch, decode, calls[n].e, before.tables);
        StoredRows(sch, decode, calls[n].e, before.tables);
      }
    }
  }

  /** What one call leaves in a column. */
  lemma ProjectedColumn(
      reg: Registry<Table>, p: string, sch: Schema, decode: Decode, db: Db<Table>, call: Call, agent: string,
      kind: Kind, c: Column)
    requires ValidSchema(sch) && Decodes(sch, decode) && Projects(reg, p, sch, decode) && ValidTable(sch, db.tables)
    requires kind in sch.owned && c in sch.owned[kind]
    ensures ValidTable(sch, Projected(reg, db, call).tables)
    ensures if Applies(reg, db, call) && call.e.agent == agent && call.e.kind == kind
            then decode(kind, call.e.payload).Some?
                && ValueAt(sch, Projected(reg, db, call).tables, agent, c) == decode(kind, call.e.payload).value[c]
            else ValueAt(sch, Projected(reg, db, call).tables, agent, c) == ValueAt(sch, db.tables, agent, c)
  {
    if Applies(reg, db, call) {
      assert Handled(reg, call, db.tables) == Store(sch, decode, call.e, db.tables);
      StoredColumn(sch, decode, call.e, db.tables, agent, c);
    }
  }

  /** The column of agent holds the value of call last, or else what it held at the start. */
  predicate ColumnIs(sch: Schema, decode: Decode, start: Table, t: Table, last: Option<Call>, agent: string,
      kind: Kind, c: Column)
    requires ValidTable(sch, start) && ValidTable(sch, t) && c in sch.zero
  {
    match last
    case Some(last) =>
      && decode(kind, last.e.payload).Some? && c in decode(kind, last.e.payload).value
      && ValueAt(sch, t, agent, c) == decode(kind, last.e.payload).value[c]
    case None => ValueAt(sch, t, agent, c) == ValueAt(sch, start, agent, c)
  }

  /** In every run each column holds the value of the last applied event of the type that owns it,
      or else what it held before. Events of other types and other agents never matter. */
  lemma {:induction false} ColumnsAreOfLastApplied(
      reg: Registry<Table>, p: string, sch: Schema, decode: Decode, db: Db<Table>, calls: seq<Call>,
      agent: string, kind: Kind, c: Column)
    requires ValidSchema(sch) && Decodes(sch, decode) && Projects(reg, p, sch, decode) && ValidTable(sch, db.tables)
    requires kind in sch.owned && c in sch.owned[kind]
    ensures ValidTable(sch, After(reg, db, calls).tables)
    ensures ColumnIs(sch, decode, db.tables, After(reg, db, calls).tables, LastApplied(reg, db, calls, agent, kind),
      agent, kind, c)
  {
    if calls != [] {
      var n := |calls| - 1;
      ColumnsAreOfLastApplied(reg, p, sch, decode, db, calls[..n], agent, kind, c);
      ProjectedColumn(reg, p, sch, decode, After(reg, db, calls[..n]), calls[n], agent, kind, c);
    }
  }

  /** An agent has a row if and only if it had one or an event of its own has been applied. */
  lemma {:induction false} RowsAreOfAppliedEvents(
      reg: Registry<Table>, p: string, sch: Schema, decode: Decode, db: Db<Table>, calls: seq<Call>, agent: string)
    requires ValidSchema(sch) && Decodes(sch, decode) && Projects(reg, p, sch, decode) && ValidTable(sch, db.tables)
    ensures agent in After(reg, db, calls).tables <==>
      agent in db.tables || exists i :: 0 <= i < |calls| && calls[i].e.agent == agent && AppliedAt(reg, db, calls, i)
  {
    if calls != [] {
      var n := |calls| - 1;
      var before := After(reg, db, calls[..n]);
      TableStaysValid(reg, p, sch, decode, db, calls[..n]);
      RowsAreOfAppliedEvents(reg, p, sch, decode, db, calls[..n], agent);
      forall i | 0 <= i < n ensures AppliedAt(reg, db, calls[..n], i) == AppliedAt(reg, db, calls, i) {
        assert calls[..n][..i] == calls[..i];
      }
      if Applies(reg, before, calls[n]) {
        assert Handled(reg, calls[n], before.tables) == Store(sch, decode, calls[n].e, before.tables);
        StoredRows(sch, decode, calls[n].e, before.tables);
        assert AppliedAt(reg, db, calls, n);
      }
    }
  }

  // ---------------------------------------------------------------- events that come late

  lemma {:induction false} LastAppliedIsApplied(reg: Registry<Table>, db: Db<Table>, calls: seq<Call>, agent: string,
      kind: Kind)
    returns (i: nat)
    requires LastApplied(reg, db, calls, agent, kind).Some?
    ensures i < |calls| && AppliedAt(reg, db, calls, i) && calls[i] == LastApplied(reg, db, calls, agent, kind).value
    ensures calls[i].e.agent == agent && calls[i].e.kind == kind
  {
    var n := |calls| - 1;
    if LastApplied(reg, db, calls, agent, kind) == LastApplied(reg, db, calls[..n], agent, kind) {
      i := LastAppliedIsApplied(reg, db, calls[..n], agent, kind);
      assert calls[..n][..i] == calls[..i];
    } else {
      i := n;
    }
  }

  lemma {:induction false} LastAppliedIsLast(reg: Registry<Table>, db: Db<Table>, calls: seq<Call>, agent: string,
      kind: Kind, i: nat)
    requires i < |calls| && AppliedAt(reg, db, calls, i) && calls[i].e.agent == agent && calls[i].e.kind == kind
    requires reg.Keys == {calls[i].projector}
    ensures LastApplied(reg, db, calls, agent, kind).Some?
    ensures calls[i].e.id <= LastApplied(reg, db, calls, agent, kind).value.e.id
  {
    var n := |calls| - 1;
    if Applies(reg, After(reg, db, calls[..n]), calls[n]) && calls[n].e.agent == agent && calls[n].e.kind == kind {
      if i < n {
        AppliedIdsIncrease(reg, db, calls, i, n);
      }
    } else {
      assert calls[..n][..i] == calls[..i];
      LastAppliedIsLast(reg, db, calls[..n], agent, kind, i);
    }
  }

  /** One cursor serves all types of events, so an event that comes late can be lost although it is
      the newest of its type. This says exactly when: the columns of a type are those of its newest
      event if and only if nothing newer that the projector handles for the agent, of whatever type,
      came before it. Here i is the first delivery of the newest event of its type. */
  lemma NewestOfTypeIsKept(reg: Registry<Table>, p: string, good: Call -> bool, db: Db<Table>, calls: seq<Call>, i: nat)
    requires reg.Keys == {p} && DecidedByEvent(reg, good) && IdsNameEvents(calls)
    requires i < |calls| && Counts(reg, good, KeyOf(calls[i]), calls[i]) && Cursor(db, KeyOf(calls[i])) < calls[i].e.id
    requires forall j | 0 <= j < i :: calls[j] != calls[i]
    requires forall c | c in calls && Counts(reg, good, KeyOf(calls[i]), c)
        && c.e.kind == calls[i].e.kind :: c.e.id <= calls[i].e.id
    ensures LastApplied(reg, db, calls, calls[i].e.agent, calls[i].e.kind) == Some(calls[i])
      <==> forall j | 0 <= j < i && Counts(reg, good, KeyOf(calls[i]), calls[j]) :: calls[j].e.id < calls[i].e.id
  {
    var agent, kind := calls[i].e.agent, calls[i].e.kind;
    AppliedAreRunningMaxima(reg, good, db, calls, i);
    if AppliedAt(reg, db, calls, i) {
      LastAppliedIsLast(reg, db, calls, agent, kind, i);
      var l := LastAppliedIsApplied(reg, db, calls, agent, kind);
      AppliedAreRunningMaxima(reg, good, db, calls, l);
      assert calls[l] in calls;
    } else if LastApplied(reg, db, calls, agent, kind) == Some(calls[i]) {
      var l := LastAppliedIsApplied(reg, db, calls, agent, kind);
      assert i <= l;
      AppliedAreRunningMaxima(reg, good, db, calls, l);
    }
  }
}
