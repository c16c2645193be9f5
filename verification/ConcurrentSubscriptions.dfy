/** The projector of SLES subscriptions under concurrency: workers may take the events of an agent in
    any order and at the same time. */
module ConcurrentSubscriptions {
  import opened Projection
  import opened Transactions
  import opened Linearization
  import opened Subscriptions

  /** The handler on the rows of its agent alone; it shares no rows. */
  function OnAgentRows(decode: Subscriptions.Decode): Local<Subscriptions.Table, ()> {
    (e: Event, rows: Option<Subscriptions.Table>) =>
      var c := Call(PROJECTOR, e);
      if Good(decode)(c) then Writes(Some(Content(decode)(c)), None) else Fails
  }

  function SlesProjector(decode: Subscriptions.Decode): Locals<Subscriptions.Table, ()> {
    map[PROJECTOR := map[SubscriptionDiscovery := OnAgentRows(decode)]]
  }

  /** What the handler does with the whole table is what it does with its agent's rows: they become
      those of the event, and no other agent's rows are touched. */
  lemma HandlerIsLocal(decode: Subscriptions.Decode, e: Event, t: Subscriptions.Table, agent: string)
    ensures match OnAgentRows(decode)(e, Some(RowsOf(t, Key(PROJECTOR, e.agent))))
            case Fails => Handle(decode, e, t) == None
            case Writes(rows, _) =>
              && Handle(decode, e, t).Some? && rows.Some?
              && RowsOf(Handle(decode, e, t).value, Key(PROJECTOR, agent)) ==
                if agent == e.agent then rows.value else RowsOf(t, Key(PROJECTOR, agent))
  {
    var c := Call(PROJECTOR, e);
    HandleReplacesRows(decode, c, t);
    if Good(decode)(c) {
      RowsAfterHandle(decode, c, t, Key(PROJECTOR, agent));
    }
  }

  function ContentRows(decode: Subscriptions.Decode): Call -> Option<Subscriptions.Table> {
    (c: Call) => Some(Content(decode)(Call(PROJECTOR, c.e)))
  }

  lemma EventsReplaceAgentRows(decode: Subscriptions.Decode)
    ensures DecidedByEvent(Lifted(SlesProjector(decode)), Good(decode))
    ensures Replaces(Lifted(SlesProjector(decode)), RowsAt(), ContentRows(decode))
  {
    var reg := SlesProjector(decode);
    forall c: Call, t: Tables<Subscriptions.Table, ()> | Interested(Lifted(reg), c)
      ensures Handled(Lifted(reg), c, t) ==
        if Good(decode)(c) then Some(Written(t, KeyOf(c), ContentRows(decode)(c), None)) else None
    {
      HandledIsLocal(reg, c, t);
    }
    forall c: Call, t: Tables<Subscriptions.Table, ()>, k: Key
      | Interested(Lifted(reg), c) && Handled(Lifted(reg), c, t).Some?
      ensures RowsAt()(Handled(Lifted(reg), c, t).value, k) ==
        if k == KeyOf(c) then ContentRows(decode)(c) else RowsAt()(t, k)
    {
    }
  }

  /** Once the agent has a cursor row: whatever the interleaving of the workers, when the same events
      have been projected the agent's cursor and subscriptions are the same. */
  lemma ConcurrentSubscriptionsConverge(
      decode: Subscriptions.Decode, db: Db<Tables<Subscriptions.Table, ()>>,
      actions: seq<Action>, actions': seq<Action>, agent: string)
    requires Key(PROJECTOR, agent) in db.cursors
    requires Reach(SlesProjector(decode), Start(db), actions).Some? &&
      Quiet(Reach(SlesProjector(decode), Start(db), actions).value)
    requires Reach(SlesProjector(decode), Start(db), actions').Some?
        && Quiet(Reach(SlesProjector(decode), Start(db), actions').value)
    requires forall c ::
      Begun(Reach(SlesProjector(decode), Start(db), actions).value, c) <==>
          Begun(Reach(SlesProjector(decode), Start(db), actions').value, c)
    requires IdsNameEvents(Reach(SlesProjector(decode), Start(db), actions).value.log)
    ensures At(Reach(SlesProjector(decode), Start(db), actions).value.db, Key(PROJECTOR, agent))
         == At(Reach(SlesProjector(decode), Start(db), actions').value.db, Key(PROJECTOR, agent))
  {
    var reg, k := SlesProjector(decode), Key(PROJECTOR, agent);
    EventsReplaceAgentRows(decode);
    PresentFromStart(reg, db, actions, k);
    PresentFromStart(reg, db, actions', k);
    ConcurrentRunsConverge(reg, Good(decode), ContentRows(decode), db, actions, actions', k);
  }

  /** Two good events of an agent. */
  predicate GoodPair(decode: Subscriptions.Decode, agent: string, older: Call, newer: Call) {
    && Good(decode)(older) && Good(decode)(newer) && 0 < older.e.id < newer.e.id
    && older.projector == PROJECTOR && older.e.agent == agent && older.e.kind == SubscriptionDiscovery
    && newer.projector == PROJECTOR && newer.e.agent == agent && newer.e.kind == SubscriptionDiscovery
  }

  lemma GoodPairOvertakes(decode: Subscriptions.Decode, db: Db<Tables<Subscriptions.Table, ()>>, agent: string,
      older: Call, newer: Call)
    requires GoodPair(decode, agent, older, newer)
    ensures Overtakes(SlesProjector(decode), db, Key(PROJECTOR, agent), older, newer)
    ensures forall row :: EffectOn(SlesProjector(decode), older, row) == Writes(Some(Content(decode)(older)), None)
  {
    assert Call(PROJECTOR, older.e) == older && Call(PROJECTOR, newer.e) == newer;
  }

  /** An agent that has no cursor row yet: of any two good events the older one's subscriptions can
      be what stays, with all transactions ended, although the newer ones have been applied. */
  lemma StaleSubscriptions(decode: Subscriptions.Decode, db: Db<Tables<Subscriptions.Table, ()>>, agent: string,
      older: Call, newer: Call)
    requires Key(PROJECTOR, agent) !in db.cursors && GoodPair(decode, agent, older, newer)
    ensures var last := Reach(SlesProjector(decode), Start(db), Race(older, newer));
      && last.Some? && Quiet(last.value) && last.value.log == [newer, older]
      && At(last.value.db, Key(PROJECTOR, agent)) == KeyState(older.e.id, Some(Content(decode)(older)))
  {
    GoodPairOvertakes(decode, db, agent, older, newer);
    var st := RaceReaches(SlesProjector(decode), db, Key(PROJECTOR, agent), older, newer);
  }

  /** So the agent's subscriptions are in every run those of sequential calls if and only if its
      cursor row is there. */
  lemma SubscriptionsSequentialExactly(decode: Subscriptions.Decode, db: Db<Tables<Subscriptions.Table, ()>>,
      agent: string, older: Call, newer: Call)
    requires GoodPair(decode, agent, older, newer)
    ensures Key(PROJECTOR, agent) in db.cursors <==>
      forall actions | Reach(SlesProjector(decode), Start(db), actions).Some? ::
        IsSequentialAt(SlesProjector(decode), db, Reach(SlesProjector(decode), Start(db), actions).value,
          Key(PROJECTOR, agent))
  {
    GoodPairOvertakes(decode, db, agent, older, newer);
    SequentialExactlyWithCursorRow(SlesProjector(decode), db, Key(PROJECTOR, agent), older, newer);
  }
}
