/** Concurrent projection refines sequential projection: what the transactions commit is what
    Project, called once for each of them in the order of their ends, computes. This needs the
    cursor rows to be there, because a locking read of a missing row locks nothing. */
module Linearization {
  import opened Projection
  import opened Transactions

  lemma LiftedIsRegistered<R, C>(reg: Locals<R, C>, c: Call)
    ensures Interested(Lifted(reg), c) <==> Registered(reg, c)
  {
  }

  /** A handler sees and changes the rows of its own key and one shared row. */
  lemma HandledIsLocal<R, C>(reg: Locals<R, C>, c: Call, t: Tables<R, C>)
    requires Registered(reg, c)
    ensures Handled(Lifted(reg), c, t) ==
      match reg[c.projector][c.e.kind](c.e, RowAt(t, KeyOf(c)))
      case Fails => None
      case Writes(row, shared) => Some(Written(t, KeyOf(c), row, shared))
  {
  }

  /** The cursor and the rows of a projector and agent. */
  datatype KeyState<R> = KeyState(cursor: int, row: Option<R>)

  function At<R, C>(db: Db<Tables<R, C>>, k: Key): KeyState<R> {
    KeyState(Cursor(db, k), RowAt(db.tables, k))
  }

  /** The transactions of key k that are past the locking read hold the lock of the cursor row, and
      what they have read and computed is still so. */
  ghost predicate TxInv<R, C>(reg: Locals<R, C>, st: State<R, C>, k: Key) {
    forall i | 0 <= i < |st.txs| && KeyOf(st.txs[i].call) == k && Inside(st.txs[i].phase) ::
      && k in st.cursorLocks && st.cursorLocks[k] == i
      && UpToDate(reg, st, st.txs[i])
  }

  predicate UpToDate<R(==), C(==)>(reg: Locals<R, C>, st: State<R, C>, tx: Tx<R, C>) {
    match tx.phase
    case Checking(last) => last == Cursor(st.db, KeyOf(tx.call))
    case Moved => Cursor(st.db, KeyOf(tx.call)) < tx.call.e.id
    case Ready(row, shared) =>
      && Cursor(st.db, KeyOf(tx.call)) < tx.call.e.id
      && Registered(reg, tx.call) && EffectOf(reg, st, tx.call) == Writes(row, shared)
    case _ => true
  }

  /** Every unfinished transaction of key k has a cursor row. */
  predicate Present<R, C>(st: State<R, C>, k: Key) {
    forall i | 0 <= i < |st.txs| && KeyOf(st.txs[i].call) == k && !st.txs[i].phase.Done? :: k in st.db.cursors
  }

  /** The same at every state of the run. */
  ghost predicate AlwaysPresent<R, C>(reg: Locals<R, C>, db: Db<Tables<R, C>>, actions: seq<Action>, k: Key) {
    forall j | 0 <= j <= |actions| && Reach(reg, Start(db), actions[..j]).Some? ::
      Present(Reach(reg, Start(db), actions[..j]).value, k)
  }

  /** A transaction does nothing to the cursor and rows of another key. */
  lemma OtherKeysStay<R, C>(reg: Locals<R, C>, st: State<R, C>, a: Action, k: Key)
    requires Enabled(reg, st, a) && (a.Commit? ==> KeyOf(st.txs[a.i].call) != k)
    ensures At(Do(reg, st, a).db, k) == At(st.db, k)
    ensures k in st.db.cursors <==> k in Do(reg, st, a).db.cursors
  {
  }

  /** The cursor row of key k is locked by the transaction that acts, or is not what it acts on. */
  lemma LockIsMine<R, C>(reg: Locals<R, C>, st: State<R, C>, a: Action, k: Key)
    requires LockInv(reg, st) && Enabled(reg, st, a) && TxInv(reg, st, k) && Present(st, k)
    ensures !a.Begin? && KeyOf(st.txs[a.i].call) == k && !a.LockRead? ==>
      k in st.cursorLocks && st.cursorLocks[k] == a.i
    ensures a.LockRead? && KeyOf(st.txs[a.i].call) == k ==> k in st.db.cursors && k !in st.cursorLocks
  {
  }

  /** What holds of a transaction that does not act still holds. */
  lemma OthersStayUpToDate<R, C>(reg: Locals<R, C>, st: State<R, C>, a: Action, k: Key, i: nat)
    requires LockInv(reg, st) && Enabled(reg, st, a) && TxInv(reg, st, k) && Present(st, k)
    requires i < |st.txs| && KeyOf(st.txs[i].call) == k && Inside(st.txs[i].phase) && !a.Begin? && a.i != i
    ensures KeyOf(st.txs[a.i].call) != k
    ensures k in Do(reg, st, a).cursorLocks && Do(reg, st, a).cursorLocks[k] == i
    ensures UpToDate(reg, Do(reg, st, a), st.txs[i])
  {
    LockIsMine(reg, st, a, k);
    OtherKeysStay(reg, st, a, k);
  }

  lemma ActorIsUpToDate<R, C>(reg: Locals<R, C>, st: State<R, C>, a: Action, k: Key)
    requires LockInv(reg, st) && Enabled(reg, st, a) && TxInv(reg, st, k) && Present(st, k)
    requires !a.Begin? && KeyOf(st.txs[a.i].call) == k && Inside(Do(reg, st, a).txs[a.i].phase)
    ensures k in Do(reg, st, a).cursorLocks && Do(reg, st, a).cursorLocks[k] == a.i
    ensures UpToDate(reg, Do(reg, st, a), Do(reg, st, a).txs[a.i])
  {
    LockIsMine(reg, st, a, k);
  }

  lemma TxInvStep<R, C>(reg: Locals<R, C>, st: State<R, C>, a: Action, k: Key)
    requires LockInv(reg, st) && Enabled(reg, st, a) && TxInv(reg, st, k) && Present(st, k)
    ensures TxInv(reg, Do(reg, st, a), k)
  {
    var st' := Do(reg, st, a);
    forall i | 0 <= i < |st'.txs| && KeyOf(st'.txs[i].call) == k && Inside(st'.txs[i].phase)
      ensures k in st'.cursorLocks && st'.cursorLocks[k] == i && UpToDate(reg, st', st'.txs[i])
    {
      if a.Begin? {
        assert i < |st.txs| && st'.txs[i] == st.txs[i];
      } else if a.i == i {
        ActorIsUpToDate(reg, st, a, k);
      } else {
        OthersStayUpToDate(reg, st, a, k, i);
        assert st'.txs[i] == st.txs[i];
      }
    }
  }

  lemma {:induction false} TxInvHolds<R, C>(reg: Locals<R, C>, db: Db<Tables<R, C>>, actions: seq<Action>, k: Key)
    requires Reach(reg, Start(db), actions).Some? && AlwaysPresent(reg, db, actions, k)
    ensures TxInv(reg, Reach(reg, Start(db), actions).value, k)
  {
    if actions != [] {
      var n := |actions| - 1;
      AlwaysPresentBefore(reg, db, actions, n, k);
      TxInvHolds(reg, db, actions[..n], k);
      LockInvHolds(reg, db, actions[..n]);
      assert Present(Reach(reg, Start(db), actions[..n]).value, k);
      TxInvStep(reg, Reach(reg, Start(db), actions[..n]).value, actions[n], k);
    }
  }

  lemma AlwaysPresentBefore<R, C>(reg: Locals<R, C>, db: Db<Tables<R, C>>, actions: seq<Action>, n: nat, k: Key)
    requires n <= |actions| && AlwaysPresent(reg, db, actions, k)
    ensures AlwaysPresent(reg, db, actions[..n], k)
  {
    forall j | 0 <= j <= n ensures actions[..n][..j] == actions[..j] {
    }
  }

  /** At most one transaction of a projector and agent is between the locking read and its end. */
  lemma OneTransactionInside<R, C>(reg: Locals<R, C>, db: Db<Tables<R, C>>, actions: seq<Action>, i: nat, j: nat)
    requires Reach(reg, Start(db), actions).Some?
    requires var txs := Reach(reg, Start(db), actions).value.txs;
      && i < |txs| && j < |txs| && Inside(txs[i].phase) && Inside(txs[j].phase)
      && KeyOf(txs[i].call) == KeyOf(txs[j].call)
      && AlwaysPresent(reg, db, actions, KeyOf(txs[i].call))
    ensures i == j
  {
    TxInvHolds(reg, db, actions, KeyOf(Reach(reg, Start(db), actions).value.txs[i].call));
  }

  // ---------------------------------------------------------------- refinement

  /** A step either ends no transaction and changes nothing that is committed, or ends one and
      commits exactly what Project does. */
  lemma StepRefinesProject<R, C>(reg: Locals<R, C>, st: State<R, C>, a: Action)
    requires LockInv(reg, st) && Enabled(reg, st, a)
    requires !a.Begin? ==> TxInv(reg, st, KeyOf(st.txs[a.i].call)) && Present(st, KeyOf(st.txs[a.i].call))
    ensures var st' := Do(reg, st, a);
      || (st'.log == st.log && st'.db == st.db)
      || (
        && !a.Begin? && st'.log == st.log + [st.txs[a.i].call]
        && st'.db == Projected(Lifted(reg), st.db, st.txs[a.i].call))
  {
    if !a.Begin? {
      var tx := st.txs[a.i];
      LiftedIsRegistered(reg, tx.call);
      HandledIsLocal(reg, tx.call, st.db.tables);
    }
  }

  lemma AfterOneMore<T>(reg: Registry<T>, db: Db<T>, log: seq<Call>, c: Call)
    ensures After(reg, db, log + [c]) == Projected(reg, After(reg, db, log), c)
  {
    assert (log + [c])[..|log|] == log;
  }

  /** Every interleaving, all cursor rows present: the committed database is at every moment that
      of sequential Project calls, one for each ended transaction, in the order of their ends. */
  lemma {:induction false} CommittedIsSequential<R, C>(reg: Locals<R, C>, db: Db<Tables<R, C>>, actions: seq<Action>)
    requires Reach(reg, Start(db), actions).Some? && forall k :: AlwaysPresent(reg, db, actions, k)
    ensures var st := Reach(reg, Start(db), actions).value;
      st.db == After(Lifted(reg), db, st.log)
  {
    if actions != [] {
      var n := |actions| - 1;
      forall k ensures AlwaysPresent(reg, db, actions[..n], k) {
        AlwaysPresentBefore(reg, db, actions, n, k);
      }
      CommittedIsSequential(reg, db, actions[..n]);
      var st, a := Reach(reg, Start(db), actions[..n]).value, actions[n];
      LockInvHolds(reg, db, actions[..n]);
      if !a.Begin? {
        var k := KeyOf(st.txs[a.i].call);
        TxInvHolds(reg, db, actions[..n], k);
        assert AlwaysPresent(reg, db, actions, k);
        assert Present(st, k);
        AfterOneMore(Lifted(reg), db, st.log, st.txs[a.i].call);
      }
      StepRefinesProject(reg, st, a);
    }
  }

  lemma ProjectedAt<R, C>(reg: Locals<R, C>, db: Db<Tables<R, C>>, db': Db<Tables<R, C>>, c: Call, k: Key)
    requires At(db, k) == At(db', k)
    ensures At(Projected(Lifted(reg), db, c), k) == At(Projected(Lifted(reg), db', c), k)
  {
    LiftedIsRegistered(reg, c);
    if Registered(reg, c) {
      HandledIsLocal(reg, c, db.tables);
      HandledIsLocal(reg, c, db'.tables);
    }
  }

  lemma ProjectedElsewhere<R, C>(reg: Locals<R, C>, db: Db<Tables<R, C>>, c: Call, k: Key)
    requires KeyOf(c) != k
    ensures At(Projected(Lifted(reg), db, c), k) == At(db, k)
  {
    LiftedIsRegistered(reg, c);
    if Registered(reg, c) {
      HandledIsLocal(reg, c, db.tables);
    }
  }

  lemma LogOfStep<R, C>(reg: Locals<R, C>, st: State<R, C>, a: Action)
    requires Enabled(reg, st, a)
    ensures Do(reg, st, a).log == st.log || (!a.Begin? && Do(reg, st, a).log == st.log + [st.txs[a.i].call])
    ensures Do(reg, st, a).log == st.log ==> !a.Commit?
  {
  }

  /** The same for one projector and agent whose cursor row is there, whatever happens to others:
      its cursor and its rows are those of the sequential calls. */
  lemma {:induction false} KeyIsSequential<R, C>(reg: Locals<R, C>, db: Db<Tables<R, C>>, actions: seq<Action>, k: Key)
    requires Reach(reg, Start(db), actions).Some? && AlwaysPresent(reg, db, actions, k)
    ensures var st := Reach(reg, Start(db), actions).value;
      At(st.db, k) == At(After(Lifted(reg), db, st.log), k)
  {
    if actions != [] {
      var n := |actions| - 1;
      AlwaysPresentBefore(reg, db, actions, n, k);
      KeyIsSequential(reg, db, actions[..n], k);
      KeyStep(reg, db, actions[..n], actions[n], k);
    }
  }

  lemma KeyStep<R, C>(reg: Locals<R, C>, db: Db<Tables<R, C>>, actions: seq<Action>, a: Action, k: Key)
    requires Reach(reg, Start(db), actions).Some? && AlwaysPresent(reg, db, actions, k)
    requires var st := Reach(reg, Start(db), actions).value;
      Enabled(reg, st, a) && At(st.db, k) == At(After(Lifted(reg), db, st.log), k)
    ensures var st' := Do(reg, Reach(reg, Start(db), actions).value, a);
      At(st'.db, k) == At(After(Lifted(reg), db, st'.log), k)
  {
    LockInvHolds(reg, db, actions);
    TxInvHolds(reg, db, actions, k);
    assert actions[..|actions|] == actions;
    KeyStepFrom(reg, db, Reach(reg, Start(db), actions).value, a, k);
  }

  lemma KeyStepFrom<R, C>(reg: Locals<R, C>, db: Db<Tables<R, C>>, st: State<R, C>, a: Action, k: Key)
    requires LockInv(reg, st) && TxInv(reg, st, k) && Present(st, k)
    requires Enabled(reg, st, a) && At(st.db, k) == At(After(Lifted(reg), db, st.log), k)
    ensures At(Do(reg, st, a).db, k) == At(After(Lifted(reg), db, Do(reg, st, a).log), k)
  {
    LogOfStep(reg, st, a);
    if Do(reg, st, a).log == st.log {
      OtherKeysStay(reg, st, a, k);
    } else {
      var c := st.txs[a.i].call;
      AfterOneMore(Lifted(reg), db, st.log, c);
      if KeyOf(c) == k {
        StepRefinesProject(reg, st, a);
        ProjectedAt(reg, st.db, After(Lifted(reg), db, st.log), c, k);
      } else {
        OtherKeysStay(reg, st, a, k);
        ProjectedElsewhere(reg, After(Lifted(reg), db, st.log), c, k);
      }
    }
  }

  // ---------------------------------------------------------------- when everything has ended

  /** All transactions that have begun have ended. */
  predicate Quiet<R, C>(st: State<R, C>) {
    forall i | 0 <= i < |st.txs| :: st.txs[i].phase.Done?
  }

  predicate Begun<R, C>(st: State<R, C>, c: Call) {
    exists i :: 0 <= i < |st.txs| && st.txs[i].call == c
  }

  lemma LogStep<R, C>(reg: Locals<R, C>, st: State<R, C>, a: Action, c: Call)
    requires Enabled(reg, st, a)
    requires c in st.log <==> exists i :: 0 <= i < |st.txs| && st.txs[i] == Tx(c, Done)
    ensures c in Do(reg, st, a).log <==>
      exists i :: 0 <= i < |Do(reg, st, a).txs| && Do(reg, st, a).txs[i] == Tx(c, Done)
  {
    var st' := Do(reg, st, a);
    LogOfStep(reg, st, a);
    if i :| 0 <= i < |st.txs| && st.txs[i] == Tx(c, Done) {
      assert st'.txs[i] == Tx(c, Done);
    }
    if i :| 0 <= i < |st'.txs| && st'.txs[i] == Tx(c, Done) {
      assert i < |st.txs| && (st.txs[i] == st'.txs[i] || i == a.i);
    }
    if !a.Begin? && st'.log != st.log {
      assert st'.txs[a.i] == Tx(st.txs[a.i].call, Done);
    }
  }

  /** Exactly the ended calls are in the log. */
  lemma {:induction false} LogIsEnded<R, C>(reg: Locals<R, C>, db: Db<Tables<R, C>>, actions: seq<Action>, c: Call)
    requires Reach(reg, Start(db), actions).Some?
    ensures var st := Reach(reg, Start(db), actions).value;
      c in st.log <==> exists i :: 0 <= i < |st.txs| && st.txs[i] == Tx(c, Done)
  {
    if actions != [] {
      var n := |actions| - 1;
      LogIsEnded(reg, db, actions[..n], c);
      LogStep(reg, Reach(reg, Start(db), actions[..n]).value, actions[n], c);
    }
  }

  lemma QuietLog<R, C>(reg: Locals<R, C>, db: Db<Tables<R, C>>, actions: seq<Action>, c: Call)
    requires Reach(reg, Start(db), actions).Some? && Quiet(Reach(reg, Start(db), actions).value)
    ensures c in Reach(reg, Start(db), actions).value.log <==> Begun(Reach(reg, Start(db), actions).value, c)
  {
    var st := Reach(reg, Start(db), actions).value;
    LogIsEnded(reg, db, actions, c);
    if i :| 0 <= i < |st.txs| && st.txs[i].call == c {
      assert st.txs[i] == Tx(c, Done);
    }
  }

  /** The newest event wins under every interleaving: when all transactions have ended the cursor is
      the largest id among the begun events whose handlers succeed, or has not moved. */
  lemma NewestWinsConcurrently<R(!new), C(!new)>(
      reg: Locals<R, C>, good: Call -> bool, db: Db<Tables<R, C>>, actions: seq<Action>, k: Key)
    requires DecidedByEvent(Lifted(reg), good)
    requires Reach(reg, Start(db), actions).Some? && Quiet(Reach(reg, Start(db), actions).value)
        && AlwaysPresent(reg, db, actions, k)
    ensures var st := Reach(reg, Start(db), actions).value;
      && Cursor(st.db, k) >= Cursor(db, k)
      && (forall c | Begun(st, c) && Counts(Lifted(reg), good, k, c) :: c.e.id <= Cursor(st.db, k))
      && (Cursor(st.db, k) == Cursor(db, k)
          || exists c :: Begun(st, c) && Counts(Lifted(reg), good, k, c) && c.e.id == Cursor(st.db, k))
  {
    var st := Reach(reg, Start(db), actions).value;
    KeyIsSequential(reg, db, actions, k);
    assert Cursor(st.db, k) == At(After(Lifted(reg), db, st.log), k).cursor;
    CursorIsNewest(Lifted(reg), good, db, st.log, k);
    forall c ensures c in st.log <==> Begun(st, c) {
      QuietLog(reg, db, actions, c);
    }
  }

  function RowsAt<R, C>(): (Tables<R, C>, Key) -> Option<R> { (t: Tables<R, C>, k: Key) => RowAt(t, k) }

  /** Two concurrent runs over the same events, however they interleave, end with the same cursor
      and the same rows, if each event replaces the rows of its agent. */
  lemma ConcurrentRunsConverge<R(!new), C(!new)>(
      reg: Locals<R, C>, good: Call -> bool, content: Call -> Option<R>,
      db: Db<Tables<R, C>>, actions: seq<Action>, actions': seq<Action>, k: Key)
    requires DecidedByEvent(Lifted(reg), good) && Replaces(Lifted(reg), RowsAt(), content)
    requires Reach(reg, Start(db), actions).Some? && Quiet(Reach(reg, Start(db), actions).value)
        && AlwaysPresent(reg, db, actions, k)
    requires Reach(reg, Start(db), actions').Some? && Quiet(Reach(reg, Start(db), actions').value)
        && AlwaysPresent(reg, db, actions', k)
    requires forall c :: Begun(Reach(reg, Start(db), actions).value, c) <==>
      Begun(Reach(reg, Start(db), actions').value, c)
    requires IdsNameEvents(Reach(reg, Start(db), actions).value.log)
    ensures At(Reach(reg, Start(db), actions).value.db, k) == At(Reach(reg, Start(db), actions').value.db, k)
  {
    var st, st' := Reach(reg, Start(db), actions).value, Reach(reg, Start(db), actions').value;
    KeyIsSequential(reg, db, actions, k);
    KeyIsSequential(reg, db, actions', k);
    forall c ensures c in st.log <==> c in st'.log {
      QuietLog(reg, db, actions, c);
      QuietLog(reg, db, actions', c);
    }
    DeliveryOrderDoesNotMatter(Lifted(reg), good, RowsAt(), content, db, st.log, st'.log, k);
    assert RowsAt()(After(Lifted(reg), db, st.log).tables, k) == RowsAt()(After(Lifted(reg), db, st'.log).tables, k);
  }

  // ---------------------------------------------------------------- when cursor rows are there

  lemma {:induction false} CursorRowStays<R, C>(reg: Locals<R, C>, db: Db<Tables<R, C>>, actions: seq<Action>, k: Key)
    requires Reach(reg, Start(db), actions).Some? && k in db.cursors
    ensures k in Reach(reg, Start(db), actions).value.db.cursors
  {
    if actions != [] {
      var n := |actions| - 1;
      CursorRowStays(reg, db, actions[..n], k);
    }
  }

  /** A cursor row that is there at the start is always there. */
  lemma PresentFromStart<R, C>(reg: Locals<R, C>, db: Db<Tables<R, C>>, actions: seq<Action>, k: Key)
    requires k in db.cursors
    ensures AlwaysPresent(reg, db, actions, k)
  {
    forall j | 0 <= j <= |actions| && Reach(reg, Start(db), actions[..j]).Some?
      ensures Present(Reach(reg, Start(db), actions[..j]).value, k)
    {
      CursorRowStays(reg, db, actions[..j], k);
    }
  }

  function EffectOn<R, C>(reg: Locals<R, C>, c: Call, row: Option<R>): Effect<R, C>
    requires Registered(reg, c)
  {
    reg[c.projector][c.e.kind](c.e, row)
  }

  /** Two events of one agent for one projector, whose handlers succeed also if the older one comes last. */
  predicate Overtakes<R, C>(reg: Locals<R, C>, db: Db<Tables<R, C>>, k: Key, older: Call, newer: Call) {
    && Registered(reg, older) && Registered(reg, newer) && KeyOf(older) == k && KeyOf(newer) == k
    && 0 < older.e.id < newer.e.id
    && EffectOn(reg, newer, RowAt(db.tables, k)).Writes?
    && EffectOn(reg, older, EffectOn(reg, newer, RowAt(db.tables, k)).row).Writes?
  }

  /** A transaction that has read the cursor runs to its end without another in between. */
  function Finish(i: nat): seq<Action> { [Move(i), RunHandler(i), Commit(i)] }

  /** Both transactions read the missing cursor before either moves it, and the older ends last. */
  function Race(older: Call, newer: Call): seq<Action> {
    [Begin(older), Begin(newer)] + [LockRead(0), LockRead(1)] + Finish(1) + Finish(0)
  }

  lemma {:induction false} ReachOfConcat<R, C>(reg: Locals<R, C>, st: State<R, C>, a: seq<Action>, b: seq<Action>)
    requires Reach(reg, st, a).Some?
    ensures Reach(reg, st, a + b) == Reach(reg, Reach(reg, st, a).value, b)
  {
    if b == [] {
      assert a + b == a;
    } else {
      var n := |b| - 1;
      ReachOfConcat(reg, st, a, b[..n]);
      assert (a + b)[..|a + b| - 1] == a + b[..n];
    }
  }

  lemma ReachOne<R, C>(reg: Locals<R, C>, st: State<R, C>, a: Action)
    requires Enabled(reg, st, a)
    ensures Reach(reg, st, [a]) == Some(Do(reg, st, a))
  {
    assert [a][..0] == [];
  }

  lemma ReachTwo<R, C>(reg: Locals<R, C>, st: State<R, C>, a: Action, b: Action)
    requires Enabled(reg, st, a) && Enabled(reg, Do(reg, st, a), b)
    ensures Reach(reg, st, [a, b]) == Some(Do(reg, Do(reg, st, a), b))
  {
    ReachOne(reg, st, a);
    ReachOne(reg, Do(reg, st, a), b);
    ReachOfConcat(reg, st, [a], [b]);
    assert [a] + [b] == [a, b];
  }

  /** The database after the transaction of an event alone. */
  function Finished<R, C>(reg: Locals<R, C>, db: Db<Tables<R, C>>, c: Call): Db<Tables<R, C>>
    requires Registered(reg, c) && EffectOn(reg, c, RowAt(db.tables, KeyOf(c))).Writes?
  {
    var effect := EffectOn(reg, c, RowAt(db.tables, KeyOf(c)));
    Db(db.cursors[KeyOf(c) := c.e.id], Written(db.tables, KeyOf(c), effect.row, effect.shared))
  }

  predicate NoLocks<R, C>(st: State<R, C>) {
    st.cursorLocks == map[] && st.sharedLocks == map[]
  }

  /** One transaction from its beginning to its end, without another in between. */
  function Alone(i: nat, c: Call): seq<Action> { [Begin(c), LockRead(i)] + Finish(i) }

  lemma FinishReaches<R, C>(reg: Locals<R, C>, st: State<R, C>, i: nat) returns (st': State<R, C>)
    requires i < |st.txs| && st.txs[i].phase.Checking? && st.txs[i].phase.last < st.txs[i].call.e.id
    requires (forall k | k in st.cursorLocks :: st.cursorLocks[k] == i) && st.sharedLocks == map[]
    requires Registered(reg, st.txs[i].call)
    requires EffectOn(reg, st.txs[i].call, RowAt(st.db.tables, KeyOf(st.txs[i].call))).Writes?
    ensures Reach(reg, st, Finish(i)) == Some(st') && NoLocks(st')
    ensures st'.db == Finished(reg, st.db, st.txs[i].call) && st'.log == st.log + [st.txs[i].call]
    ensures st'.txs == st.txs[i := Tx(st.txs[i].call, Done)]
  {
    var s1 := Do(reg, st, Move(i));
    var s2 := Do(reg, s1, RunHandler(i));
    st' := Do(reg, s2, Commit(i));
    ReachTwo(reg, st, Move(i), RunHandler(i));
    ReachOne(reg, s2, Commit(i));
    ReachOfConcat(reg, st, [Move(i), RunHandler(i)], [Commit(i)]);
    assert [Move(i), RunHandler(i)] + [Commit(i)] == Finish(i);
  }

  lemma AloneReaches<R, C>(reg: Locals<R, C>, st: State<R, C>, c: Call) returns (st': State<R, C>)
    requires NoLocks(st) && Registered(reg, c) && Cursor(st.db, KeyOf(c)) < c.e.id
    requires EffectOn(reg, c, RowAt(st.db.tables, KeyOf(c))).Writes?
    ensures Reach(reg, st, Alone(|st.txs|, c)) == Some(st') && NoLocks(st')
    ensures st'.db == Finished(reg, st.db, c) && st'.log == st.log + [c] && st'.txs == st.txs + [Tx(c, Done)]
  {
    var i := |st.txs|;
    var s1 := Do(reg, st, Begin(c));
    var s2 := Do(reg, s1, LockRead(i));
    ReachTwo(reg, st, Begin(c), LockRead(i));
    assert s2.txs == st.txs + [Tx(c, Checking(Cursor(st.db, KeyOf(c))))];
    st' := FinishReaches(reg, s2, i);
    ReachOfConcat(reg, st, [Begin(c), LockRead(i)], Finish(i));
    assert st'.txs == st.txs + [Tx(c, Done)];
  }

  function BothHaveRead<R, C>(db: Db<Tables<R, C>>, older: Call, newer: Call): State<R, C> {
    State(db, [Tx(older, Checking(0)), Tx(newer, Checking(0))], map[], map[], [])
  }

  lemma BothRead<R, C>(reg: Locals<R, C>, db: Db<Tables<R, C>>, k: Key, older: Call, newer: Call)
    requires k !in db.cursors && Overtakes(reg, db, k, older, newer)
    ensures Reach(reg, Start(db), [Begin(older), Begin(newer)] + [LockRead(0), LockRead(1)])
         == Some(BothHaveRead(db, older, newer))
  {
    var start := Start(db);
    ReachTwo(reg, start, Begin(older), Begin(newer));
    var s2 := Do(reg, Do(reg, start, Begin(older)), Begin(newer));
    assert s2 == State(db, [Tx(older, Reading), Tx(newer, Reading)], map[], map[], []);
    var s3 := Do(reg, s2, LockRead(0));
    assert s3 == State(db, [Tx(older, Checking(0)), Tx(newer, Reading)], map[], map[], []);
    assert Do(reg, s3, LockRead(1)) == BothHaveRead(db, older, newer);
    ReachTwo(reg, s2, LockRead(0), LockRead(1));
    ReachOfConcat(reg, start, [Begin(older), Begin(newer)], [LockRead(0), LockRead(1)]);
  }

  /** Both events are applied, the older one last. */
  lemma RaceReaches<R, C>(reg: Locals<R, C>, db: Db<Tables<R, C>>, k: Key, older: Call, newer: Call)
    returns (st: State<R, C>)
    requires k !in db.cursors && Overtakes(reg, db, k, older, newer)
    ensures Reach(reg, Start(db), Race(older, newer)) == Some(st) && Quiet(st)
    ensures st.log == [newer, older] && Cursor(st.db, k) == older.e.id
    ensures RowAt(st.db.tables, k) == EffectOn(reg, older, EffectOn(reg, newer, RowAt(db.tables, k)).row).row
  {
    var both := BothHaveRead(db, older, newer);
    var begun := [Begin(older), Begin(newer)] + [LockRead(0), LockRead(1)];
    BothRead(reg, db, k, older, newer);
    var st1 := FinishReaches(reg, both, 1);
    ReachOfConcat(reg, Start(db), begun, Finish(1));
    assert RowAt(st1.db.tables, k) == EffectOn(reg, newer, RowAt(db.tables, k)).row;
    st := FinishReaches(reg, st1, 0);
    ReachOfConcat(reg, Start(db), begun + Finish(1), Finish(0));
    assert st.log == [] + [newer] + [older];
  }

  /** Sequential calls in that order apply the newer event and skip the older one. */
  lemma SequentialKeepsNewer<R, C>(reg: Locals<R, C>, db: Db<Tables<R, C>>, k: Key, older: Call, newer: Call)
    requires k !in db.cursors && Overtakes(reg, db, k, older, newer)
    ensures At(After(Lifted(reg), db, [newer, older]), k) ==
            KeyState(newer.e.id, EffectOn(reg, newer, RowAt(db.tables, k)).row)
  {
    AfterOneMore(Lifted(reg), db, [newer], older);
    AfterOneMore(Lifted(reg), db, [], newer);
    assert [] + [newer] == [newer] && [newer] + [older] == [newer, older];
    LiftedIsRegistered(reg, newer);
    HandledIsLocal(reg, newer, db.tables);
  }

  /** The cursor row is exactly what is needed, and a caller can look whether it is there: with it
      every run of any handlers is sequential for this projector and agent. Without it, whatever
      two events of the agent the handlers accept, there is a run that is not sequential: both are
      applied, the older one last, and it stays. */
  lemma SequentialExactlyWithCursorRow<R, C>(reg: Locals<R, C>, db: Db<Tables<R, C>>, k: Key, older: Call, newer: Call)
    requires Overtakes(reg, db, k, older, newer)
    ensures k in db.cursors <==> forall actions | Reach(reg, Start(db), actions).Some? ::
      IsSequentialAt(reg, db, Reach(reg, Start(db), actions).value, k)
  {
    if k in db.cursors {
      forall actions | Reach(reg, Start(db), actions).Some?
        ensures IsSequentialAt(reg, db, Reach(reg, Start(db), actions).value, k)
      {
        PresentFromStart(reg, db, actions, k);
        KeyIsSequential(reg, db, actions, k);
      }
    } else {
      var st := RaceReaches(reg, db, k, older, newer);
      SequentialKeepsNewer(reg, db, k, older, newer);
      assert !IsSequentialAt(reg, db, Reach(reg, Start(db), Race(older, newer)).value, k);
    }
  }

  ghost predicate IsSequentialAt<R, C>(reg: Locals<R, C>, db: Db<Tables<R, C>>, st: State<R, C>, k: Key) {
    At(st.db, k) == At(After(Lifted(reg), db, st.log), k)
  }
}
