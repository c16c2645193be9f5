/** The projector of SLES subscriptions: an event replaces all rows of its agent. */
module Subscriptions {
  import opened Projection

  datatype Discovered = Discovered(
    identifier: string, version: string, kind: string, arch: string, status: string,
    startsAt: string, expiresAt: string, subscriptionStatus: string)

  /** The primary key of a row. */
  datatype RowKey = RowKey(agent: string, id: string)

  datatype SlesSubscription = SlesSubscription(
    key: RowKey, version: string, kind: string, arch: string, status: string,
    startsAt: string, expiresAt: string, subscriptionStatus: string)

  type Table = map<RowKey, SlesSubscription>

  /** The decoding of a payload, which is not part of this model. */
  type Decode = string -> Option<seq<Discovered>>

  const PROJECTOR := "sles_subscriptions"

  function Entity(agent: string, d: Discovered): SlesSubscription {
    SlesSubscription(
      RowKey(agent, d.identifier), d.version, d.kind, d.arch, d.status, d.startsAt, d.expiresAt, d.subscriptionStatus)
  }

  function Entities(agent: string, ds: seq<Discovered>): seq<SlesSubscription> {
    seq(|ds|, i requires 0 <= i < |ds| => Entity(agent, ds[i]))
  }

  function WithoutAgent(t: Table, agent: string): Table {
    map k | k in t && k.agent != agent :: t[k]
  }

  /** An insert of several rows fails if a row with the same primary key is there already. */
  function Inserted(t: Table, rows: seq<SlesSubscription>): Option<Table>
    decreases |rows|
  {
    if rows == [] then Some(t)
    else if rows[0].key in t then None
    else Inserted(t[rows[0].key := rows[0]], rows[1..])
  }

  function Handle(decode: Decode, e: Event, t: Table): Option<Table> {
    match decode(e.payload)
    case None => None
    case Some(ds) => Inserted(WithoutAgent(t, e.agent), Entities(e.agent, ds))
  }

  /** The handler: it builds the entities, and then deletes and inserts in one transaction, which
      leaves the table as it was if the insert fails. */
  method SubscriptionDiscoveryHandler(decode: Decode, e: Event, db: Database<Table>) returns (failed: bool)
    modifies db`tables
    ensures failed <==> Handle(decode, e, old(db.tables)).None?
    ensures db.tables == if failed then old(db.tables) else Handle(decode, e, old(db.tables)).value
  {
    var discovered := decode(e.payload);
    if discovered == None {
      return true;
    }
    var subEntities: seq<SlesSubscription> := [];
    for i := 0 to |discovered.value|
      invariant subEntities == Entities(e.agent, discovered.value[..i])
    {
      subEntities := subEntities + [Entity(e.agent, discovered.value[i])];
    }
    assert discovered.value[..|discovered.value|] == discovered.value;
    var before := db.tables;
    db.tables := WithoutAgent(db.tables, e.agent);
    if |subEntities| > 0 {
      var inserted := Inserted(db.tables, subEntities);
      if inserted == None {
        db.tables := before;
        return true;
      }
      db.tables := inserted.value;
    }
    failed := false;
  }

  // ---------------------------------------------------------------- what an event leaves

  function Registered(decode: Decode): Registry<Table> {
    map[PROJECTOR := map[SubscriptionDiscovery := (e: Event, t: Table) => Handle(decode, e, t)]]
  }

  lemma OnlySubscriptionEvents(decode: Decode, c: Call)
    ensures Interested(Registered(decode), c) <==>
      c.projector == "sles_subscriptions" && c.e.kind == SubscriptionDiscovery
  {
  }

  predicate DistinctIdentifiers(ds: seq<Discovered>) {
    forall i, j | 0 <= i < j < |ds| :: ds[i].identifier != ds[j].identifier
  }

  /** When the handler succeeds: the payload is one and names no subscription twice. */
  function Good(decode: Decode): Call -> bool {
    (c: Call) => decode(c.e.payload).Some? && DistinctIdentifiers(decode(c.e.payload).value)
  }

  /** The rows by their keys. */
  function ByKey(rows: seq<SlesSubscription>): Table
    decreases |rows|
  {
    if rows == [] then map[] else ByKey(rows[1..])[rows[0].key := rows[0]]
  }

  predicate DistinctKeys(rows: seq<SlesSubscription>) {
    forall i, j | 0 <= i < j < |rows| :: rows[i].key != rows[j].key
  }

  lemma {:induction false} ByKeyHas(rows: seq<SlesSubscription>, key: RowKey)
    ensures key in ByKey(rows) <==> exists i :: 0 <= i < |rows| && rows[i].key == key
    decreases |rows|
  {
    if rows != [] {
      ByKeyHas(rows[1..], key);
      forall i | 0 < i < |rows| ensures rows[1..][i - 1] == rows[i] {
      }
      if key in ByKey(rows[1..]) {
        var i :| 0 <= i < |rows[1..]| && rows[1..][i].key == key;
        assert rows[i + 1].key == key;
      }
    }
  }

  lemma {:induction false} ByKeyAt(rows: seq<SlesSubscription>, i: nat)
    requires i < |rows| && DistinctKeys(rows)
    ensures rows[i].key in ByKey(rows) && ByKey(rows)[rows[i].key] == rows[i]
    decreases |rows|
  {
    if i > 0 {
      assert rows[1..][i - 1] == rows[i];
      ByKeyAt(rows[1..], i - 1);
    }
  }

  lemma DistinctKeysOf(rows: seq<SlesSubscription>)
    requires rows != []
    ensures DistinctKeys(rows) <==> DistinctKeys(rows[1..]) && rows[0].key !in ByKey(rows[1..])
  {
    ByKeyHas(rows[1..], rows[0].key);
    if DistinctKeys(rows[1..]) && rows[0].key !in ByKey(rows[1..]) {
      forall i, j | 0 <= i < j < |rows| ensures rows[i].key != rows[j].key {
        assert rows[1..][j - 1] == rows[j];
        assert i > 0 ==> rows[1..][i - 1] == rows[i];
      }
    }
  }

  /** An insert succeeds exactly if the keys are new and distinct, and then it adds the rows. */
  lemma {:induction false} InsertedAddsRows(t: Table, rows: seq<SlesSubscription>)
    ensures Inserted(t, rows) ==
      if DistinctKeys(rows) && t.Keys !! ByKey(rows).Keys then Some(t + ByKey(rows)) else None
    decreases |rows|
  {
    if rows == [] {
      assert t + ByKey(rows) == t;
    } else {
      var t', rest := t[rows[0].key := rows[0]], rows[1..];
      DistinctKeysOf(rows);
      InsertedAddsRows(t', rest);
      if rows[0].key !in t {
        assert t'.Keys !! ByKey(rest).Keys <==> t.Keys !! ByKey(rest).Keys && rows[0].key !in ByKey(rest);
        if rows[0].key !in ByKey(rest) {
          assert t' + ByKey(rest) == t + ByKey(rows);
        }
      } else {
        assert rows[0].key in t.Keys * ByKey(rows).Keys;
      }
    }
  }

  /** The rows of an agent. Other projectors keep nothing here. */
  function RowsOf(t: Table, k: Key): Table {
    if k.projector == PROJECTOR then map key | key in t && key.agent == k.agent :: t[key] else map[]
  }

  /** The rows that an event leaves for its agent. */
  function Content(decode: Decode): Call -> Table {
    (c: Call) =>
      match decode(c.e.payload)
      case None => map[]
      case Some(ds) => ByKey(Entities(c.e.agent, ds))
  }

  /** One row for each subscription of the payload and no other. */
  lemma ContentIsPayload(decode: Decode, c: Call, key: RowKey)
    requires Good(decode)(c)
    ensures var ds := decode(c.e.payload).value;
      && (key in Content(decode)(c) <==>
        key.agent == c.e.agent && exists i :: 0 <= i < |ds| && ds[i].identifier == key.id)
      && forall i | 0 <= i < |ds| && key == RowKey(c.e.agent, ds[i].identifier) ::
        Content(decode)(c)[key] == Entity(c.e.agent, ds[i])
  {
    var ds := decode(c.e.payload).value;
    var rows := Entities(c.e.agent, ds);
    ByKeyHas(rows, key);
    forall i | 0 <= i < |ds| && key == RowKey(c.e.agent, ds[i].identifier)
      ensures key in ByKey(rows) && ByKey(rows)[key] == Entity(c.e.agent, ds[i])
    {
      assert rows[i].key == key;
      ByKeyAt(rows, i);
    }
  }

  /** Field by field: the row of a subscription has what the payload says of it. */
  lemma RowHasItsFields(decode: Decode, c: Call, i: nat)
    requires Good(decode)(c) && i < |decode(c.e.payload).value|
    ensures var d, key := decode(c.e.payload).value[i], RowKey(c.e.agent, decode(c.e.payload).value[i].identifier);
      && key in Content(decode)(c)
      && var row := Content(decode)(c)[key];
         && row.key == key && row.version == d.version && row.kind == d.kind && row.arch == d.arch
         && row.status == d.status && row.startsAt == d.startsAt && row.expiresAt == d.expiresAt
         && row.subscriptionStatus == d.subscriptionStatus
  {
    ContentIsPayload(decode, c, RowKey(c.e.agent, decode(c.e.payload).value[i].identifier));
  }

  lemma HandleReplacesRows(decode: Decode, c: Call, t: Table)
    ensures Handle(decode, c.e, t) ==
      if Good(decode)(c) then Some(WithoutAgent(t, c.e.agent) + Content(decode)(c)) else None
  {
    if decode(c.e.payload).Some? {
      var ds, agent := decode(c.e.payload).value, c.e.agent;
      var rows := Entities(agent, ds);
      InsertedAddsRows(WithoutAgent(t, agent), rows);
      assert forall i, j | 0 <= i < j < |ds| :: rows[i].key == rows[j].key <==> ds[i].identifier == ds[j].identifier;
      forall key | key in ByKey(rows) ensures key !in WithoutAgent(t, agent) {
        ByKeyHas(rows, key);
      }
    }
  }

  lemma RowsAfterHandle(decode: Decode, c: Call, t: Table, k: Key)
    requires Good(decode)(c) && c.projector == PROJECTOR
    ensures RowsOf(WithoutAgent(t, c.e.agent) + Content(decode)(c), k) ==
      if k == KeyOf(c) then Content(decode)(c) else RowsOf(t, k)
  {
    forall key | key in Content(decode)(c) ensures key.agent == c.e.agent {
      ContentIsPayload(decode, c, key);
    }
  }

  lemma EventsReplaceRows(decode: Decode)
    ensures DecidedByEvent(Registered(decode), Good(decode))
    ensures Replaces(Registered(decode), RowsOf, Content(decode))
  {
    var reg := Registered(decode);
    forall c: Call, t: Table | Interested(reg, c)
      ensures Handled(reg, c, t) ==
        if Good(decode)(c) then Some(WithoutAgent(t, c.e.agent) + Content(decode)(c)) else None
    {
      HandleReplacesRows(decode, c, t);
    }
    forall c: Call, t: Table, k: Key | Interested(reg, c) && Handled(reg, c, t).Some?
      ensures RowsOf(Handled(reg, c, t).value, k) == if k == KeyOf(c) then Content(decode)(c) else RowsOf(t, k)
    {
      RowsAfterHandle(decode, c, t, k);
    }
  }

  // ---------------------------------------------------------------- confluence

  lemma TablesEqual(t: Table, t': Table)
    requires forall agent :: RowsOf(t, Key(PROJECTOR, agent)) == RowsOf(t', Key(PROJECTOR, agent))
    ensures t == t'
  {
    forall key: RowKey ensures key in t <==> key in t'
      ensures key in t ==> t[key] == t'[key]
    {
      var k := Key(PROJECTOR, key.agent);
      assert key in t <==> key in RowsOf(t, k);
      assert key in t' <==> key in RowsOf(t', k);
      assert key in t ==> RowsOf(t, k)[key] == t[key];
      assert key in t' ==> RowsOf(t', k)[key] == t'[key];
    }
  }

  /** Whatever the order of delivery and the repetitions, the same events end in the same table. */
  lemma SubscriptionsConverge(decode: Decode, db: Db<Table>, calls: seq<Call>, calls': seq<Call>)
    requires (forall c :: c in calls <==> c in calls') && IdsNameEvents(calls)
    ensures After(Registered(decode), db, calls).tables == After(Registered(decode), db, calls').tables
    ensures forall k ::
      Cursor(After(Registered(decode), db, calls), k) == Cursor(After(Registered(decode), db, calls'), k)
  {
    var reg := Registered(decode);
    EventsReplaceRows(decode);
    forall k
      ensures Cursor(After(reg, db, calls), k) == Cursor(After(reg, db, calls'), k)
      ensures RowsOf(After(reg, db, calls).tables, k) == RowsOf(After(reg, db, calls').tables, k)
    {
      DeliveryOrderDoesNotMatter(reg, Good(decode), RowsOf, Content(decode), db, calls, calls', k);
    }
    TablesEqual(After(reg, db, calls).tables, After(reg, db, calls').tables);
  }

  /** The rows of an agent are those of its newest good event, or the ones from before if there is
      no good event that is newer than the agent's cursor. */
  lemma SubscriptionsAreOfNewest(decode: Decode, db: Db<Table>, calls: seq<Call>, agent: string)
    ensures var k, db' := Key(PROJECTOR, agent), After(Registered(decode), db, calls);
      || ((forall c | c in calls && Counts(Registered(decode), Good(decode), k, c) :: c.e.id <= Cursor(db, k))
          && RowsOf(db'.tables, k) == RowsOf(db.tables, k))
      || exists c :: c in calls && Counts(Registered(decode), Good(decode), k, c)
          && (forall c' | c' in calls && Counts(Registered(decode), Good(decode), k, c') :: c'.e.id <= c.e.id)
          && RowsOf(db'.tables, k) == Content(decode)(c)
  {
    var k := Key(PROJECTOR, agent);
    EventsReplaceRows(decode);
    CursorIsNewest(Registered(decode), Good(decode), db, calls, k);
    RowsAreOfNewest(Registered(decode), Good(decode), RowsOf, Content(decode), db, calls, k);
  }
}
