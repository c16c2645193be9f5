/** The pool that takes events from a channel and runs all projectors on each of them in a worker of
    its own. A semaphore bounds the workers. On cancellation the pool waits for them to end. */
module WorkerPool {
  import opened Projection

  /** Where Run is: in its select, waiting for a permit for the event, waiting for all permits, or
      back at the caller, having got them or not. */
  datatype Phase =
    | Selecting
    | Acquiring(event: nat)
    | Draining
    | Returned(drained: bool)

  /** A call of one projector with one event. Events are numbered in the order of their receipt. */
  datatype ProjectorCall = ProjectorCall(event: nat, projector: nat)

  /** For each running worker's event, the projector that is next; held counts the permits taken. */
  datatype Pool = Pool(
    phase: Phase, cancelled: bool, received: nat, held: nat, running: map<nat, nat>,
    started: set<nat>, discarded: set<nat>, calls: seq<ProjectorCall>)

  datatype Action =
    | Receive | Acquire | Refuse | Cancel | Project(event: nat) | Finish(event: nat)
    | Drain | AcquireAll | TimeOut

  /** The size of the semaphore, which is 100 in the program, and of the registry of projectors. */
  datatype Config = Config(workers: nat, projectors: nat)

  function Start(): Pool { Pool(Selecting, false, 0, 0, map[], {}, {}, []) }

  /** An event may be taken after the cancellation too, as the select may choose either. A permit
      may then still be given, or be refused. */
  predicate Enabled(cfg: Config, p: Pool, a: Action) {
    match a
    case Receive => p.phase.Selecting?
    case Acquire => p.phase.Acquiring? && p.held < cfg.workers
    case Refuse => p.phase.Acquiring? && p.cancelled
    case Cancel => true
    case Project(n) => n in p.running && p.running[n] < cfg.projectors
    case Finish(n) => n in p.running && p.running[n] == cfg.projectors && p.held > 0
    case Drain => p.phase.Selecting? && p.cancelled
    case AcquireAll => p.phase.Draining? && p.held == 0
    case TimeOut => p.phase.Draining?
  }

  function Do(cfg: Config, p: Pool, a: Action): Pool
    requires Enabled(cfg, p, a)
  {
    match a
    case Receive => p.(phase := Acquiring(p.received), received := p.received + 1)
    case Acquire =>
      var n := p.phase.event;
      p.(phase := Selecting, held := p.held + 1, running := p.running[n := 0], started := p.started + {n})
    case Refuse => p.(phase := Selecting, discarded := p.discarded + {p.phase.event})
    case Cancel => p.(cancelled := true)
    case Project(n) =>
      p.(running := p.running[n := p.running[n] + 1], calls := p.calls + [ProjectorCall(n, p.running[n])])
    case Finish(n) => p.(running := p.running - {n}, held := p.held - 1)
    case Drain => p.(phase := Draining)
    case AcquireAll => p.(phase := Returned(true), held := cfg.workers)
    case TimeOut => p.(phase := Returned(false))
  }

  /** The pool after the actions, if each of them could be taken. */
  function Reach(cfg: Config, actions: seq<Action>): Option<Pool> {
    if actions == [] then Some(Start())
    else
      var n := |actions| - 1;
      match Reach(cfg, actions[..n])
      case None => None
      case Some(before) => if Enabled(cfg, before, actions[n]) then Some(Do(cfg, before, actions[n])) else None
  }

  // ---------------------------------------------------------------- the invariant

  /** The projectors that have been called with an event, in order. */
  function CallsOf(calls: seq<ProjectorCall>, event: nat): seq<nat> {
    if calls == [] then []
    else
      var n := |calls| - 1;
      CallsOf(calls[..n], event) + if calls[n].event == event then [calls[n].projector] else []
  }

  /** The first n projectors in the registry's order. */
  function FirstProjectors(n: nat): seq<nat> { seq(n, i => i) }

  function CalledSoFar(cfg: Config, p: Pool, event: nat): nat {
    if event in p.running then p.running[event] else if event in p.started then cfg.projectors else 0
  }

  ghost predicate PermitInv(cfg: Config, p: Pool) {
    && p.held <= cfg.workers
    && (if p.phase == Returned(true) then p.running == map[] else p.held == |p.running.Keys|)
    && p.running.Keys <= p.started
    && forall n | n in p.running :: p.running[n] <= cfg.projectors
  }

  ghost predicate EventInv(p: Pool) {
    && p.started !! p.discarded
    && (p.phase.Acquiring? ==> p.received == p.phase.event + 1)
    && (forall n: nat :: n in p.started || n in p.discarded <==>
      n < if p.phase.Acquiring? then p.phase.event else p.received)
    && (p.discarded != {} || p.phase.Draining? || p.phase.Returned? ==> p.cancelled)
  }

  ghost predicate CallInv(cfg: Config, p: Pool) {
    forall n: nat :: CallsOf(p.calls, n) == FirstProjectors(CalledSoFar(cfg, p, n))
  }

  ghost predicate Inv(cfg: Config, p: Pool) {
    PermitInv(cfg, p) && EventInv(p) && CallInv(cfg, p)
  }

  lemma OneMore(s: set<nat>, x: nat)
    requires x !in s
    ensures |s + {x}| == |s| + 1
  {
  }

  lemma AcquireStep(cfg: Config, p: Pool)
    requires PermitInv(cfg, p) && EventInv(p) && Enabled(cfg, p, Acquire)
    ensures PermitInv(cfg, Do(cfg, p, Acquire))
  {
    var n, p' := p.phase.event, Do(cfg, p, Acquire);
    assert n !in p.started;
    assert p' == p.(phase := Selecting, held := p.held + 1, running := p.running[n := 0], started := p.started + {n});
    assert p'.running.Keys == p.running.Keys + {n};
    OneMore(p.running.Keys, n);
    forall k | k in p'.running ensures p'.running[k] <= cfg.projectors {
      assert k == n || k in p.running;
    }
  }

  lemma ProjectStep(cfg: Config, p: Pool, n: nat)
    requires PermitInv(cfg, p) && Enabled(cfg, p, Project(n))
    ensures PermitInv(cfg, Do(cfg, p, Project(n)))
  {
    assert Do(cfg, p, Project(n)).running.Keys == p.running.Keys;
  }

  lemma FinishStep(cfg: Config, p: Pool, n: nat)
    requires PermitInv(cfg, p) && Enabled(cfg, p, Finish(n))
    ensures PermitInv(cfg, Do(cfg, p, Finish(n)))
  {
    assert Do(cfg, p, Finish(n)).running.Keys == p.running.Keys - {n};
  }

  lemma PermitStep(cfg: Config, p: Pool, a: Action)
    requires PermitInv(cfg, p) && EventInv(p) && Enabled(cfg, p, a)
    ensures PermitInv(cfg, Do(cfg, p, a))
  {
    match a
    case Acquire => AcquireStep(cfg, p);
    case Project(n) => ProjectStep(cfg, p, n);
    case Finish(n) => FinishStep(cfg, p, n);
    case AcquireAll => assert p.running.Keys == {};
    case _ =>
  }

  lemma EventStep(cfg: Config, p: Pool, a: Action)
    requires EventInv(p) && Enabled(cfg, p, a)
    ensures EventInv(Do(cfg, p, a))
  {
  }

  lemma CallStep(cfg: Config, p: Pool, a: Action)
    requires Inv(cfg, p) && Enabled(cfg, p, a)
    ensures CallInv(cfg, Do(cfg, p, a))
  {
    var p' := Do(cfg, p, a);
    forall n: nat ensures CallsOf(p'.calls, n) == FirstProjectors(CalledSoFar(cfg, p', n)) {
      assert CallsOf(p.calls, n) == FirstProjectors(CalledSoFar(cfg, p, n));
      if a.Project? {
        OneMoreCall(p.calls, a.event, p.running[a.event], n);
      }
    }
  }

  lemma OneMoreCall(calls: seq<ProjectorCall>, event: nat, projector: nat, n: nat)
    ensures CallsOf(calls + [ProjectorCall(event, projector)], n) ==
      CallsOf(calls, n) + if n == event then [projector] else []
    ensures FirstProjectors(projector) + [projector] == FirstProjectors(projector + 1)
  {
    assert (calls + [ProjectorCall(event, projector)])[..|calls|] == calls;
  }

  lemma {:induction false} InvHolds(cfg: Config, actions: seq<Action>)
    requires Reach(cfg, actions).Some?
    ensures Inv(cfg, Reach(cfg, actions).value)
  {
    if actions != [] {
      var n := |actions| - 1;
      InvHolds(cfg, actions[..n]);
      var p := Reach(cfg, actions[..n]).value;
      PermitStep(cfg, p, actions[n]);
      EventStep(cfg, p, actions[n]);
      CallStep(cfg, p, actions[n]);
    }
  }

  // ---------------------------------------------------------------- what it means

  /** In every run: never more workers than permits; an event is started or discarded but not both,
      and discarded only after the cancellation; and no projector gets an event twice or before the
      projectors that are registered before it. */
  lemma PoolIsSafe(cfg: Config, actions: seq<Action>, event: nat)
    requires Reach(cfg, actions).Some?
    ensures var p := Reach(cfg, actions).value;
      && |p.running.Keys| <= cfg.workers
      && !(event in p.started && event in p.discarded)
      && (event in p.discarded ==> p.cancelled)
      && CallsOf(p.calls, event) <= FirstProjectors(cfg.projectors)
      && (event !in p.started ==> CallsOf(p.calls, event) == [])
  {
    InvHolds(cfg, actions);
    var p := Reach(cfg, actions).value;
    assert CallsOf(p.calls, event) == FirstProjectors(CalledSoFar(cfg, p, event));
  }

  /** If Run returns with all permits, no worker is running: every event that was received has been
      projected by every projector, each once and in order, or was discarded. */
  lemma DrainedPoolIsDone(cfg: Config, actions: seq<Action>, event: nat)
    requires Reach(cfg, actions).Some? && Reach(cfg, actions).value.phase == Returned(true)
    requires event < Reach(cfg, actions).value.received
    ensures var p := Reach(cfg, actions).value;
      && p.running == map[]
      && if event in p.discarded then p.cancelled && CallsOf(p.calls, event) == []
         else CallsOf(p.calls, event) == FirstProjectors(cfg.projectors)
  {
    InvHolds(cfg, actions);
    var p := Reach(cfg, actions).value;
    assert CallsOf(p.calls, event) == FirstProjectors(CalledSoFar(cfg, p, event));
  }
}
