/** Events are projected into read models: each projector keeps a cursor for each agent and hands an
    event to its handler only if the event is newer than the cursor. */
module Projection {
  datatype Option<+T> = None | Some(value: T)

  /** The discovery types by name; an event may come with any other name. */
  datatype Kind =
    | ClusterDiscovery | SAPSystemDiscovery | HostDiscovery | SubscriptionDiscovery | CloudDiscovery
    | Other(name: string)

  /** An event as an agent's discovery has sent it. The payload is JSON text. */
  datatype Event = Event(id: int, agent: string, kind: Kind, payload: string)

  /** The key of a cursor row. */
  datatype Key = Key(projector: string, agent: string)

  /** The committed state of the database: the cursors and the read models. */
  datatype Db<T> = Db(cursors: map<Key, int>, tables: T)

  /** A handler gives the changed tables, or an error. */
  type Handler<!T> = (Event, T) -> Option<T>
  type Handlers<!T> = map<Kind, Handler<T>>
  type Registry<!T> = map<string, Handlers<T>>

  /** One projector's Project called with one event. */
  datatype Call = Call(projector: string, e: Event)

  function KeyOf(c: Call): Key { Key(c.projector, c.e.agent) }

  /** A cursor row that is not there is read as zero. */
  function Cursor<T>(db: Db<T>, k: Key): int {
    if k in db.cursors then db.cursors[k] else 0
  }

  predicate Interested<T>(reg: Registry<T>, c: Call) {
    c.projector in reg && c.e.kind in reg[c.projector]
  }

  function Handled<T>(reg: Registry<T>, c: Call, tables: T): Option<T>
    requires Interested(reg, c)
  {
    reg[c.projector][c.e.kind](c.e, tables)
  }

  /** The event is newer than the cursor and its handler succeeds. */
  predicate Applies<T>(reg: Registry<T>, db: Db<T>, c: Call) {
    Interested(reg, c) && Cursor(db, KeyOf(c)) < c.e.id && Handled(reg, c, db.tables).Some?
  }

  /** The database after Project. */
  function Projected<T>(reg: Registry<T>, db: Db<T>, c: Call): Db<T> {
    if Applies(reg, db, c)
    then Db(db.cursors[KeyOf(c) := c.e.id], Handled(reg, c, db.tables).value)
    else db
  }

  /** The database after the calls, one after the other. */
  function After<T>(reg: Registry<T>, db: Db<T>, calls: seq<Call>): Db<T> {
    if calls == [] then db
    else Projected(reg, After(reg, db, calls[..|calls| - 1]), calls[|calls| - 1])
  }

  /** An agent that has no cursor row yet: every event with a positive id is new. */
  lemma FirstIsApplied<T>(reg: Registry<T>, db: Db<T>, c: Call)
    requires KeyOf(c) !in db.cursors && Interested(reg, c) && Handled(reg, c, db.tables).Some?
    ensures Applies(reg, db, c) <==> c.e.id > 0
    ensures c.e.id > 0 ==> Projected(reg, db, c).cursors == db.cursors[Key(c.projector, c.e.agent) := c.e.id]
  {
  }

  // ---------------------------------------------------------------- the projector

  class Database<T> {
    var cursors: map<Key, int>
    var tables: T

    constructor (tables: T)
      ensures cursors == map[] && this.tables == tables
    {
      this.cursors := map[];
      this.tables := tables;
    }

    ghost function State(): Db<T>
      reads this
    {
      Db(cursors, tables)
    }
  }

  class Projector<T> {
    const id: string
    const db: Database<T>
    var handlers: Handlers<T>

    constructor (id: string, db: Database<T>)
      ensures this.id == id && this.db == db && handlers == map[]
    {
      this.id := id;
      this.db := db;
      this.handlers := map[];
    }

    method AddHandler(discoveryType: Kind, handler: Handler<T>)
      modifies this
      ensures handlers == old(handlers)[discoveryType := handler]
    {
      handlers := handlers[discoveryType := handler];
    }

    /** One transaction: read the cursor, skip an old event, move the cursor and run the handler. If
        the handler fails the cursor moves back. */
    method Project(e: Event) returns (failed: bool)
      modifies db
      ensures db.State() == Projected(map[id := handlers], old(db.State()), Call(id, e))
      ensures failed <==>
        && Interested(map[id := handlers], Call(id, e)) && Cursor(old(db.State()), Key(id, e.agent)) < e.id
        && Handled(map[id := handlers], Call(id, e), old(db.tables)).None?
    {
      if e.kind !in handlers {
        return false;
      }
      var handler := handlers[e.kind];
      var key := Key(id, e.agent);
      var cursorsAtBegin := db.cursors;
      var last := 0;
      if key in db.cursors {
        last := db.cursors[key];
      }
      if last >= e.id {
        return false;
      }
      db.cursors := db.cursors[key := e.id];
      match handler(e, db.tables) {
        case None =>
          db.cursors := cursorsAtBegin;
          failed := true;
        case Some(tables) =>
          db.tables := tables;
          failed := false;
      }
    }
  }

  // ---------------------------------------------------------------- running maxima

  /** The i-th call runs its handler successfully. */
  predicate AppliedAt<T>(reg: Registry<T>, db: Db<T>, calls: seq<Call>, i: nat)
    requires i < |calls|
  {
    Applies(reg, After(reg, db, calls[..i]), calls[i])
  }

  lemma OneMore<T>(reg: Registry<T>, db: Db<T>, calls: seq<Call>, i: nat)
    requires i < |calls|
    ensures After(reg, db, calls[..i + 1]) == Projected(reg, After(reg, db, calls[..i]), calls[i])
  {
    assert calls[..i + 1][..i] == calls[..i];
  }

  lemma {:induction false} CursorGrows<T>(reg: Registry<T>, db: Db<T>, calls: seq<Call>, k: Key, i: nat, j: nat)
    requires i <= j <= |calls|
    ensures Cursor(After(reg, db, calls[..i]), k) <= Cursor(After(reg, db, calls[..j]), k)
    decreases j
  {
    if i < j {
      CursorGrows(reg, db, calls, k, i, j - 1);
      OneMore(reg, db, calls, j - 1);
    }
  }

  /** For every sequence of calls, whatever the handlers do: the ids that a projector applies for an
      agent strictly increase, so nothing is applied twice. */
  lemma AppliedIdsIncrease<T>(reg: Registry<T>, db: Db<T>, calls: seq<Call>, i: nat, j: nat)
    requires i < j < |calls| && KeyOf(calls[i]) == KeyOf(calls[j])
    requires AppliedAt(reg, db, calls, i) && AppliedAt(reg, db, calls, j)
    ensures calls[i].e.id < calls[j].e.id
  {
    OneMore(reg, db, calls, i);
    CursorGrows(reg, db, calls, KeyOf(calls[i]), i + 1, j);
  }

  /** Whether a handler succeeds depends on the event only. */
  ghost predicate DecidedByEvent<T(!new)>(reg: Registry<T>, good: Call -> bool) {
    forall c: Call, t: T | Interested(reg, c) :: Handled(reg, c, t).Some? <==> good(c)
  }

  /** A call that the projector and agent of key k are concerned with and whose handler succeeds. */
  predicate Counts<T>(reg: Registry<T>, good: Call -> bool, k: Key, c: Call) {
    KeyOf(c) == k && Interested(reg, c) && good(c)
  }

  /** The cursor is the largest id among the calls that count, or stays. */
  lemma {:induction false} CursorIsNewest<T(!new)>(reg: Registry<T>, good: Call -> bool, db: Db<T>, calls: seq<Call>,
      k: Key)
    requires DecidedByEvent(reg, good)
    ensures var last := Cursor(After(reg, db, calls), k);
      && last >= Cursor(db, k)
      && (forall c | c in calls && Counts(reg, good, k, c) :: c.e.id <= last)
      && (last == Cursor(db, k) || exists c :: c in calls && Counts(reg, good, k, c) && c.e.id == last)
  {
    if calls != [] {
      var n := |calls| - 1;
      CursorIsNewest(reg, good, db, calls[..n], k);
      assert calls == calls[..n] + [calls[n]];
      assert calls[n] in calls;
    }
  }

  /** The handler runs exactly on the running maxima: the i-th call is applied if and only if it
      counts, is newer than the first cursor and is newer than every earlier call that counts. */
  lemma AppliedAreRunningMaxima<T(!new)>(reg: Registry<T>, good: Call -> bool, db: Db<T>, calls: seq<Call>, i: nat)
    requires DecidedByEvent(reg, good) && i < |calls|
    ensures AppliedAt(reg, db, calls, i) <==>
      && Interested(reg, calls[i]) && good(calls[i]) && Cursor(db, KeyOf(calls[i])) < calls[i].e.id
      && forall j | 0 <= j < i && Counts(reg, good, KeyOf(calls[i]), calls[j]) :: calls[j].e.id < calls[i].e.id
  {
    var k := KeyOf(calls[i]);
    CursorIsNewest(reg, good, db, calls[..i], k);
    forall j | 0 <= j < i && Counts(reg, good, k, calls[j]) ensures calls[j] in calls[..i] {
      assert calls[..i][j] == calls[j];
    }
    forall c | c in calls[..i] ensures exists j :: 0 <= j < i && calls[j] == c {
      var j :| 0 <= j < i && calls[..i][j] == c;
      assert calls[j] == c;
    }
  }

  /** The newest event has been applied, in whatever order the events came, and nothing after it. */
  lemma NewestIsApplied<T(!new)>(reg: Registry<T>, good: Call -> bool, db: Db<T>, calls: seq<Call>, k: Key)
    returns (i: nat)
    requires DecidedByEvent(reg, good)
    requires exists c :: c in calls && Counts(reg, good, k, c) && Cursor(db, k) < c.e.id
    ensures i < |calls| && KeyOf(calls[i]) == k && AppliedAt(reg, db, calls, i)
    ensures calls[i].e.id == Cursor(After(reg, db, calls), k)
    ensures forall c | c in calls && Counts(reg, good, k, c) :: c.e.id <= calls[i].e.id
    ensures forall j | i < j < |calls| && KeyOf(calls[j]) == k :: !AppliedAt(reg, db, calls, j)
    decreases |calls|
  {
    CursorIsNewest(reg, good, db, calls, k);
    i := FirstNewest(reg, good, calls, k, Cursor(After(reg, db, calls), k));
    AppliedAreRunningMaxima(reg, good, db, calls, i);
    forall j | i < j < |calls| && KeyOf(calls[j]) == k ensures !AppliedAt(reg, db, calls, j) {
      AppliedAreRunningMaxima(reg, good, db, calls, j);
    }
  }

  lemma FirstNewest<T>(reg: Registry<T>, good: Call -> bool, calls: seq<Call>, k: Key, id: int) returns (i: nat)
    requires exists c :: c in calls && Counts(reg, good, k, c) && c.e.id == id
    requires forall c | c in calls && Counts(reg, good, k, c) :: c.e.id <= id
    ensures i < |calls| && Counts(reg, good, k, calls[i]) && calls[i].e.id == id
    ensures forall j | 0 <= j < i && Counts(reg, good, k, calls[j]) :: calls[j].e.id < id
  {
    i := 0;
    var c :| c in calls && Counts(reg, good, k, c) && c.e.id == id;
    while !(Counts(reg, good, k, calls[i]) && calls[i].e.id == id)
      invariant i < |calls|
      invariant c in calls[i..]
      invariant forall j | 0 <= j < i && Counts(reg, good, k, calls[j]) :: calls[j].e.id < id
      decreases |calls| - i
    {
      assert calls[i] in calls;
      assert calls[i..] == [calls[i]] + calls[i + 1..];
      i := i + 1;
    }
  }

  // ---------------------------------------------------------------- confluence

  /** The rows that belong to a projector and an agent are given by the last event applied to them,
      and no other projector or agent changes them. */
  ghost predicate Replaces<T(!new), R>(reg: Registry<T>, rows: (T, Key) -> R, content: Call -> R) {
    forall c: Call, t: T, k: Key | Interested(reg, c) && Handled(reg, c, t).Some? ::
      rows(Handled(reg, c, t).value, k) == if k == KeyOf(c) then content(c) else rows(t, k)
  }

  /** The rows are those of the newest event, if there is one newer than the first cursor. */
  lemma {:induction false} RowsAreOfNewest<T(!new), R>(
      reg: Registry<T>, good: Call -> bool, rows: (T, Key) -> R, content: Call -> R, db: Db<T>, calls: seq<Call>,
      k: Key)
    requires DecidedByEvent(reg, good) && Replaces(reg, rows, content)
    ensures var db' := After(reg, db, calls);
      || (Cursor(db', k) == Cursor(db, k) && rows(db'.tables, k) == rows(db.tables, k))
      || (Cursor(db', k) > Cursor(db, k)
          && exists c ::
            c in calls && Counts(reg, good, k, c) && c.e.id == Cursor(db', k) && rows(db'.tables, k) == content(c))
  {
    if calls != [] {
      var n := |calls| - 1;
      RowsAreOfNewest(reg, good, rows, content, db, calls[..n], k);
      assert calls == calls[..n] + [calls[n]];
      assert calls[n] in calls;
      var before := After(reg, db, calls[..n]);
      if Applies(reg, before, calls[n]) {
        assert rows(Handled(reg, calls[n], before.tables).value, k)
            == if k == KeyOf(calls[n]) then content(calls[n]) else rows(before.tables, k);
      }
    }
  }

  /** An id names one event. */
  ghost predicate IdsNameEvents(calls: seq<Call>) {
    forall c, c' | c in calls && c' in calls && c.e.id == c'.e.id :: c.e == c'.e
  }

  /** Two deliveries of the same events, in any two orders and with any repetitions, leave the same
      cursors and the same rows. */
  lemma DeliveryOrderDoesNotMatter<T(!new), R>(
      reg: Registry<T>, good: Call -> bool, rows: (T, Key) -> R, content: Call -> R,
      db: Db<T>, calls: seq<Call>, calls': seq<Call>, k: Key)
    requires DecidedByEvent(reg, good) && Replaces(reg, rows, content)
    requires (forall c :: c in calls <==> c in calls') && IdsNameEvents(calls)
    ensures Cursor(After(reg, db, calls), k) == Cursor(After(reg, db, calls'), k)
    ensures rows(After(reg, db, calls).tables, k) == rows(After(reg, db, calls').tables, k)
  {
    CursorIsNewest(reg, good, db, calls, k);
    CursorIsNewest(reg, good, db, calls', k);
    RowsAreOfNewest(reg, good, rows, content, db, calls, k);
    RowsAreOfNewest(reg, good, rows, content, db, calls', k);
  }
}
