/** Many workers project events at the same time. Each Project is a transaction of several steps,
    and between any two of them other transactions may take theirs. A transaction waits for the lock
    of its cursor row, and its handler may wait for the lock of a row that agents share. */
module Transactions {
  import opened Projection

  /** The rows of each projector and agent, and the rows that agents share, such as clusters. */
  datatype Tables<R, C> = Tables(rows: map<Key, R>, shared: map<string, C>)

  datatype SharedRow<C> = SharedRow(id: string, content: C)

  /** What a handler does with the rows of its agent: nothing is left of it if it fails; else the
      agent's rows are as given, and a shared row may be replaced as a whole. */
  datatype Effect<R, C> = Fails | Writes(row: Option<R>, shared: Option<SharedRow<C>>)

  type Local<!R, !C> = (Event, Option<R>) -> Effect<R, C>
  type Locals<!R, !C> = map<string, map<Kind, Local<R, C>>>

  function RowAt<R, C>(t: Tables<R, C>, k: Key): Option<R> {
    if k in t.rows then Some(t.rows[k]) else None
  }

  function Put<K, V>(m: map<K, V>, k: K, v: Option<V>): map<K, V> {
    match v
    case None => m - {k}
    case Some(v) => m[k := v]
  }

  function Written<R, C>(t: Tables<R, C>, k: Key, row: Option<R>, shared: Option<SharedRow<C>>): Tables<R, C> {
    Tables(Put(t.rows, k, row), if shared.Some? then t.shared[shared.value.id := shared.value.content] else t.shared)
  }

  /** The handlers as Project runs them on the tables. */
  function Lift<R, C>(p: string, h: Local<R, C>): Handler<Tables<R, C>> {
    (e: Event, t: Tables<R, C>) =>
      match h(e, RowAt(t, Key(p, e.agent)))
      case Fails => None
      case Writes(row, shared) => Some(Written(t, Key(p, e.agent), row, shared))
  }

  function Lifted<R, C>(reg: Locals<R, C>): Registry<Tables<R, C>> {
    map p | p in reg :: map kind | kind in reg[p] :: Lift(p, reg[p][kind])
  }

  // ---------------------------------------------------------------- transactions

  /** How far a transaction is: before the locking read, having read the cursor, having moved it,
      having run the handler, and committed or rolled back. */
  datatype Phase<R, C> =
    | Reading
    | Checking(last: int)
    | Moved
    | Ready(row: Option<R>, shared: Option<SharedRow<C>>)
    | Done

  datatype Tx<R, C> = Tx(call: Call, phase: Phase<R, C>)

  /** What is committed, the transactions, the holders of the row locks, and the calls whose
      transactions have ended, in that order. */
  datatype State<R, C> = State(
    db: Db<Tables<R, C>>, txs: seq<Tx<R, C>>, cursorLocks: map<Key, nat>, sharedLocks: map<string, nat>, log: seq<Call>)

  datatype Action =
    | Begin(call: Call)
    | LockRead(i: nat)
    | Skip(i: nat)
    | Move(i: nat)
    | RunHandler(i: nat)
    | Commit(i: nat)

  predicate Registered<R, C>(reg: Locals<R, C>, c: Call) {
    c.projector in reg && c.e.kind in reg[c.projector]
  }

  function EffectOf<R, C>(reg: Locals<R, C>, st: State<R, C>, c: Call): Effect<R, C>
    requires Registered(reg, c)
  {
    reg[c.projector][c.e.kind](c.e, RowAt(st.db.tables, KeyOf(c)))
  }

  predicate HasPhase<R, C>(st: State<R, C>, i: nat) { i < |st.txs| && !st.txs[i].phase.Done? }

  predicate CanWrite<R, C>(st: State<R, C>, effect: Effect<R, C>) {
    effect.Writes? && effect.shared.Some? ==> effect.shared.value.id !in st.sharedLocks
  }

  /** An action waits while another transaction holds the lock that it needs. A locking read locks
      nothing if the cursor row is not there; moving the cursor then does. */
  predicate Enabled<R, C>(reg: Locals<R, C>, st: State<R, C>, a: Action) {
    match a
    case Begin(c) => Registered(reg, c)
    case LockRead(i) => HasPhase(st, i) && st.txs[i].phase.Reading?
        && KeyOf(st.txs[i].call) !in st.cursorLocks.Keys * st.db.cursors.Keys
    case Skip(i) => HasPhase(st, i) && st.txs[i].phase.Checking? && st.txs[i].phase.last >= st.txs[i].call.e.id
    case Move(i) =>
      && HasPhase(st, i) && st.txs[i].phase.Checking? && st.txs[i].phase.last < st.txs[i].call.e.id
      && (KeyOf(st.txs[i].call) in st.cursorLocks ==> st.cursorLocks[KeyOf(st.txs[i].call)] == i)
    case RunHandler(i) =>
      && HasPhase(st, i) && st.txs[i].phase.Moved? && Registered(reg, st.txs[i].call)
      && CanWrite(st, EffectOf(reg, st, st.txs[i].call))
    case Commit(i) => HasPhase(st, i) && st.txs[i].phase.Ready?
  }

  function Release<K>(locks: map<K, nat>, i: nat): map<K, nat> {
    map k | k in locks && locks[k] != i :: locks[k]
  }

  /** The transaction ends and gives its locks back. */
  function End<R, C>(st: State<R, C>, i: nat, db: Db<Tables<R, C>>): State<R, C>
    requires i < |st.txs|
  {
    State(
      db, st.txs[i := Tx(st.txs[i].call, Done)],
      Release(st.cursorLocks, i), Release(st.sharedLocks, i), st.log + [st.txs[i].call])
  }

  function WithPhase<R, C>(st: State<R, C>, i: nat, phase: Phase<R, C>): State<R, C>
    requires i < |st.txs|
  {
    st.(txs := st.txs[i := Tx(st.txs[i].call, phase)])
  }

  function Do<R, C>(reg: Locals<R, C>, st: State<R, C>, a: Action): State<R, C>
    requires Enabled(reg, st, a)
  {
    match a
    case Begin(c) => st.(txs := st.txs + [Tx(c, Reading)])
    case LockRead(i) =>
      var k := KeyOf(st.txs[i].call);
      var locked := if k in st.db.cursors then st.(cursorLocks := st.cursorLocks[k := i]) else st;
      WithPhase(locked, i, Checking(Cursor(st.db, k)))
    case Skip(i) => End(st, i, st.db)
    case Move(i) => WithPhase(st.(cursorLocks := st.cursorLocks[KeyOf(st.txs[i].call) := i]), i, Moved)
    case RunHandler(i) => (
      match EffectOf(reg, st, st.txs[i].call)
      case Fails => End(st, i, st.db)
      case Writes(row, shared) =>
        var locked := if shared.Some? then st.(sharedLocks := st.sharedLocks[shared.value.id := i]) else st;
        WithPhase(locked, i, Ready(row, shared)))
    case Commit(i) =>
      var c, ph := st.txs[i].call, st.txs[i].phase;
      End(st, i, Db(st.db.cursors[KeyOf(c) := c.e.id], Written(st.db.tables, KeyOf(c), ph.row, ph.shared)))
  }

  /** A state from which nothing has begun. */
  function Start<R, C>(db: Db<Tables<R, C>>): State<R, C> {
    State(db, [], map[], map[], [])
  }

  /** The state after the actions, if each of them could be taken. */
  function Reach<R, C>(reg: Locals<R, C>, st: State<R, C>, actions: seq<Action>): Option<State<R, C>> {
    if actions == [] then Some(st)
    else
      var n := |actions| - 1;
      match Reach(reg, st, actions[..n])
      case None => None
      case Some(before) => if Enabled(reg, before, actions[n]) then Some(Do(reg, before, actions[n])) else None
  }

  // ---------------------------------------------------------------- locks

  /** A transaction that may hold the lock of its cursor row. */
  predicate Inside<R, C>(ph: Phase<R, C>) { ph.Checking? || ph.Moved? || ph.Ready? }

  ghost predicate LockInv<R, C>(reg: Locals<R, C>, st: State<R, C>) {
    && (forall i | 0 <= i < |st.txs| :: Registered(reg, st.txs[i].call))
    && (forall k | k in st.cursorLocks ::
          && st.cursorLocks[k] < |st.txs| && KeyOf(st.txs[st.cursorLocks[k]].call) == k
          && Inside(st.txs[st.cursorLocks[k]].phase))
    && (forall id | id in st.sharedLocks ::
          && st.sharedLocks[id] < |st.txs| && st.txs[st.sharedLocks[id]].phase.Ready?
          && st.txs[st.sharedLocks[id]].phase.shared.Some? && st.txs[st.sharedLocks[id]].phase.shared.value.id == id)
  }

  lemma EndKeepsLocks<R, C>(reg: Locals<R, C>, st: State<R, C>, i: nat, db: Db<Tables<R, C>>)
    requires LockInv(reg, st) && i < |st.txs|
    ensures LockInv(reg, End(st, i, db))
  {
  }

  lemma PhaseKeepsLocks<R, C>(reg: Locals<R, C>, st: State<R, C>, i: nat, phase: Phase<R, C>)
    requires LockInv(reg, st) && HasPhase(st, i) && !st.txs[i].phase.Ready? && Inside(phase)
    ensures LockInv(reg, WithPhase(st, i, phase))
  {
  }

  lemma CursorLockKeepsLocks<R, C>(reg: Locals<R, C>, st: State<R, C>, i: nat)
    requires LockInv(reg, st) && HasPhase(st, i) && Inside(st.txs[i].phase)
    ensures LockInv(reg, st.(cursorLocks := st.cursorLocks[KeyOf(st.txs[i].call) := i]))
  {
  }

  lemma SharedLockKeepsLocks<R, C>(reg: Locals<R, C>, st: State<R, C>, i: nat)
    requires LockInv(reg, st) && HasPhase(st, i) && st.txs[i].phase.Ready? && st.txs[i].phase.shared.Some?
    ensures LockInv(reg, st.(sharedLocks := st.sharedLocks[st.txs[i].phase.shared.value.id := i]))
  {
  }

  lemma LockInvStep<R, C>(reg: Locals<R, C>, st: State<R, C>, a: Action)
    requires LockInv(reg, st) && Enabled(reg, st, a)
    ensures LockInv(reg, Do(reg, st, a))
  {
    match a
    case Begin(c) =>
    case LockRead(i) =>
      var phase := Checking(Cursor(st.db, KeyOf(st.txs[i].call)));
      PhaseKeepsLocks(reg, st, i, phase);
      CursorLockKeepsLocks(reg, WithPhase(st, i, phase), i);
    case Skip(i) => EndKeepsLocks(reg, st, i, st.db);
    case Move(i) =>
      PhaseKeepsLocks(reg, st, i, Moved);
      CursorLockKeepsLocks(reg, WithPhase(st, i, Moved), i);
    case RunHandler(i) =>
      var effect := EffectOf(reg, st, st.txs[i].call);
      if effect.Fails? {
        EndKeepsLocks(reg, st, i, st.db);
      } else {
        var phase := Ready(effect.row, effect.shared);
        PhaseKeepsLocks(reg, st, i, phase);
        if effect.shared.Some? { SharedLockKeepsLocks(reg, WithPhase(st, i, phase), i); }
      }
    case Commit(i) => EndKeepsLocks(reg, st, i, Do(reg, st, a).db);
  }

  lemma {:induction false} LockInvHolds<R, C>(reg: Locals<R, C>, db: Db<Tables<R, C>>, actions: seq<Action>)
    requires Reach(reg, Start(db), actions).Some?
    ensures LockInv(reg, Reach(reg, Start(db), actions).value)
  {
    if actions != [] {
      var n := |actions| - 1;
      LockInvHolds(reg, db, actions[..n]);
      LockInvStep(reg, Reach(reg, Start(db), actions[..n]).value, actions[n]);
    }
  }

  /** Transaction i has written the cursor row of its agent, and has not ended. */
  predicate WritesCursor<R, C>(st: State<R, C>, i: nat) {
    i < |st.txs| && (st.txs[i].phase.Moved? || st.txs[i].phase.Ready?)
  }

  /** Transaction i has written the shared row id, and has not ended. */
  predicate WritesShared<R, C>(st: State<R, C>, i: nat, id: string) {
    i < |st.txs| && st.txs[i].phase.Ready? && st.txs[i].phase.shared.Some? && st.txs[i].phase.shared.value.id == id
  }

  /** Whoever has written a row holds its lock. */
  ghost predicate HoldsWritten<R, C>(st: State<R, C>) {
    && (forall i: nat | WritesCursor(st, i) :: CursorLockOf(st, KeyOf(st.txs[i].call), i))
    && forall i: nat, id | WritesShared(st, i, id) :: SharedLockOf(st, id, i)
  }

  predicate CursorLockOf<R, C>(st: State<R, C>, k: Key, i: nat) { k in st.cursorLocks && st.cursorLocks[k] == i }

  predicate SharedLockOf<R, C>(st: State<R, C>, id: string, i: nat) { id in st.sharedLocks && st.sharedLocks[id] == i }

  lemma CursorLockStays<R, C>(reg: Locals<R, C>, st: State<R, C>, a: Action, i: nat)
    requires HoldsWritten(st) && Enabled(reg, st, a) && WritesCursor(Do(reg, st, a), i)
    ensures CursorLockOf(Do(reg, st, a), KeyOf(Do(reg, st, a).txs[i].call), i)
  {
    assert i < |st.txs| && st.txs[i].call == Do(reg, st, a).txs[i].call;
    assert WritesCursor(st, i) || a == Move(i);
    if a != Move(i) {
      assert CursorLockOf(st, KeyOf(st.txs[i].call), i);
    }
  }

  lemma SharedLockStays<R, C>(reg: Locals<R, C>, st: State<R, C>, a: Action, i: nat, id: string)
    requires HoldsWritten(st) && Enabled(reg, st, a) && WritesShared(Do(reg, st, a), i, id)
    ensures SharedLockOf(Do(reg, st, a), id, i)
  {
    assert i < |st.txs|;
    assert WritesShared(st, i, id) || a == RunHandler(i);
    if a != RunHandler(i) {
      assert SharedLockOf(st, id, i);
    }
  }

  lemma {:induction false} WrittenIsHeld<R, C>(reg: Locals<R, C>, db: Db<Tables<R, C>>, actions: seq<Action>)
    requires Reach(reg, Start(db), actions).Some?
    ensures HoldsWritten(Reach(reg, Start(db), actions).value)
  {
    if actions != [] {
      var n := |actions| - 1;
      WrittenIsHeld(reg, db, actions[..n]);
      var st := Reach(reg, Start(db), actions[..n]).value;
      forall i: nat | WritesCursor(Do(reg, st, actions[n]), i)
        ensures CursorLockOf(Do(reg, st, actions[n]), KeyOf(Do(reg, st, actions[n]).txs[i].call), i)
      {
        CursorLockStays(reg, st, actions[n], i);
      }
      forall i: nat, id | WritesShared(Do(reg, st, actions[n]), i, id)
        ensures SharedLockOf(Do(reg, st, actions[n]), id, i)
      {
        SharedLockStays(reg, st, actions[n], i, id);
      }
    }
  }

  /** Writes exclude each other: in every reachable state at most one unfinished transaction has written
      a shared row, such as that of a cluster, and at most one the cursor row of a projector and
      agent, whether or not that row was there. The second one waits for the end of the first. */
  lemma OneWriterOfARow<R, C>(reg: Locals<R, C>, db: Db<Tables<R, C>>, actions: seq<Action>, i: nat, j: nat)
    requires Reach(reg, Start(db), actions).Some?
    ensures var st := Reach(reg, Start(db), actions).value;
      WritesCursor(st, i) && WritesCursor(st, j) && KeyOf(st.txs[i].call) == KeyOf(st.txs[j].call) ==> i == j
    ensures var st := Reach(reg, Start(db), actions).value;
      forall id :: WritesShared(st, i, id) && WritesShared(st, j, id) ==> i == j
  {
    WrittenIsHeld(reg, db, actions);
    var st := Reach(reg, Start(db), actions).value;
    if WritesCursor(st, i) && WritesCursor(st, j) {
      assert CursorLockOf(st, KeyOf(st.txs[i].call), i) && CursorLockOf(st, KeyOf(st.txs[j].call), j);
    }
    forall id | WritesShared(st, i, id) && WritesShared(st, j, id) ensures i == j {
      assert SharedLockOf(st, id, i) && SharedLockOf(st, id, j);
    }
  }

  /** No stuck state: in every reachable state with an unfinished transaction some transaction can
      take a step. A transaction waits for its own cursor row only, or holding that for a shared
      row, and whoever holds a shared row waits for nothing. */
  lemma SomeTransactionCanStep<R, C>(reg: Locals<R, C>, db: Db<Tables<R, C>>, actions: seq<Action>, i: nat)
    returns (a: Action)
    requires Reach(reg, Start(db), actions).Some?
    requires HasPhase(Reach(reg, Start(db), actions).value, i)
    ensures !a.Begin? && Enabled(reg, Reach(reg, Start(db), actions).value, a)
  {
    var st := Reach(reg, Start(db), actions).value;
    LockInvHolds(reg, db, actions);
    var k := KeyOf(st.txs[i].call);
    if k in st.cursorLocks {
      a := HolderCanStep(reg, st, st.cursorLocks[k]);
    } else {
      match st.txs[i].phase
      case Reading => a := LockRead(i);
      case Checking(last) => a := if last >= st.txs[i].call.e.id then Skip(i) else Move(i);
      case Moved => a := HandlerCanStep(reg, st, i);
      case Ready(_, _) => a := Commit(i);
    }
  }

  lemma HolderCanStep<R, C>(reg: Locals<R, C>, st: State<R, C>, i: nat) returns (a: Action)
    requires LockInv(reg, st) && i < |st.txs| && KeyOf(st.txs[i].call) in st.cursorLocks
    requires st.cursorLocks[KeyOf(st.txs[i].call)] == i
    ensures !a.Begin? && Enabled(reg, st, a)
  {
    match st.txs[i].phase
    case Checking(last) => a := if last >= st.txs[i].call.e.id then Skip(i) else Move(i);
    case Moved => a := HandlerCanStep(reg, st, i);
    case Ready(_, _) => a := Commit(i);
  }

  lemma HandlerCanStep<R, C>(reg: Locals<R, C>, st: State<R, C>, i: nat) returns (a: Action)
    requires LockInv(reg, st) && i < |st.txs| && st.txs[i].phase.Moved?
    ensures !a.Begin? && Enabled(reg, st, a)
  {
    match EffectOf(reg, st, st.txs[i].call)
    case Fails => a := RunHandler(i);
    case Writes(_, shared) =>
      var waits := shared.Some? && shared.value.id in st.sharedLocks;
      a := if waits then Commit(st.sharedLocks[shared.value.id]) else RunHandler(i);
  }

  /** The steps that the transactions still have to take. */
  function Work<R, C>(txs: seq<Tx<R, C>>): nat {
    if txs == [] then 0 else Work(txs[..|txs| - 1]) + StepsLeft(txs[|txs| - 1].phase)
  }

  function StepsLeft<R, C>(ph: Phase<R, C>): nat {
    match ph
    case Reading => 4
    case Checking(_) => 3
    case Moved => 2
    case Ready(_, _) => 1
    case Done => 0
  }

  lemma {:induction false} WorkOfUpdate<R, C>(txs: seq<Tx<R, C>>, i: nat, tx: Tx<R, C>)
    requires i < |txs|
    ensures Work(txs[i := tx]) == Work(txs) - StepsLeft(txs[i].phase) + StepsLeft(tx.phase)
  {
    var n := |txs| - 1;
    if i < n {
      assert txs[i := tx][..n] == txs[..n][i := tx];
      WorkOfUpdate(txs[..n], i, tx);
    } else {
      assert txs[i := tx][..n] == txs[..n];
    }
  }

  /** Every step brings the transactions nearer to their ends: once no more begin, no run is longer
      than the work that is left, so with the lemma above all of them end. */
  lemma {:induction false} RunsEnd<R, C>(reg: Locals<R, C>, st: State<R, C>, actions: seq<Action>)
    requires Reach(reg, st, actions).Some? && forall j | 0 <= j < |actions| :: !actions[j].Begin?
    ensures Work(Reach(reg, st, actions).value.txs) + |actions| <= Work(st.txs)
  {
    if actions != [] {
      var n := |actions| - 1;
      RunsEnd(reg, st, actions[..n]);
      var before := Reach(reg, st, actions[..n]).value;
      assert actions[n].i < |before.txs|;
      WorkOfUpdate(before.txs, actions[n].i, Do(reg, before, actions[n]).txs[actions[n].i]);
    }
  }
}
