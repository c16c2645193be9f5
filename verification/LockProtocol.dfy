/** Many agents store below one path at the same time: the systems of a host, the clusters, or the
    cloud data of a host. Each takes the lock, deletes, puts one key at a time in any order, and
    gives the lock back; between any two of these steps the others may run. */
module LockProtocol {
  import opened Strings
  import opened GoPath
  import opened Trees
  import opened Decoder
  import opened Writes
  import opened Consul
  import opened RoundTrip
  import opened Slashes
  import opened Subtrees
  import opened Stores

  // ---------------------------------------------------------------- the three sites

  /** What is stored below one path under one lock. */
  datatype Site = SystemsOf(host: string) | AllClusters | CloudOf(host: string)

  datatype Job = Job(id: string, data: map<string, Tree>)

  predicate GoodSite(site: Site) {
    site.AllClusters? || ValidComponent(site.host)
  }

  function Root(site: Site): string {
    match site
    case SystemsOf(host) => SapSystemsPath(host)
    case AllClusters => CLUSTERS_PATH
    case CloudOf(host) => CloudPath(host)
  }

  function LockKey(site: Site): string {
    match site
    case SystemsOf(host) => SapSystemsPath(host)
    case AllClusters => CLUSTERS_PATH
    case CloudOf(host) => HostPath(host)
  }

  /** The path that a job deletes and puts; a host has only one for its cloud data. */
  function PathOf(site: Site, id: string): string {
    match site
    case SystemsOf(host) => SapSystemsPath(host) + id
    case AllClusters => DiscoveredPath(id)
    case CloudOf(host) => CloudPath(host)
  }

  predicate CanHold(site: Site, m: map<string, Tree>) {
    match site
    case SystemsOf(_) => Systems(m)
    case AllClusters => Clusters(m)
    case CloudOf(_) => Valid(Dir(m))
  }

  /** What the site holds after one job. */
  ghost function AfterJob(site: Site, m: map<string, Tree>, job: Job): map<string, Tree> {
    var data := Expansion(job.data);
    match site
    case SystemsOf(_) => Replaced(m, job.id, Dir(data))
    case AllClusters => WithDiscovered(m, job.id, data)
    case CloudOf(_) => data
  }

  ghost predicate ValidJob(job: Job) {
    ValidComponent(job.id) && SlashValid(Dir(job.data))
  }

  lemma SiteBase(site: Site)
    requires GoodSite(site)
    ensures CleanBase(Root(site)) && GoodPrefix(Root(site)) && HasSuffixSlash(Root(site))
    ensures LockKey(site) == Root(site) || !(Root(site) <= LockKey(site))
  {
    match site
    case SystemsOf(host) => SapSystemsBase(host);
    case AllClusters => ClusterBase("-");
    case CloudOf(host) =>
      CloudBase(host);
      assert |LockKey(site)| < |Root(site)|;
  }

  /** Deleting and rewriting a job's path is what AfterJob says. */
  lemma RewriteSite(site: Site, s: Entries, s': Entries, m: map<string, Tree>, job: Job)
    requires GoodSite(site) && CanHold(site, m) && ValidJob(job)
    requires Holds(s, Root(site), m) && Rewritten(s, s', PathOf(site, job.id), job.data)
    ensures Holds(s', Root(site), AfterJob(site, m, job))
  {
    SiteBase(site);
    match site
    case SystemsOf(host) => RewriteChild(s, s', Root(site), m, job.id, job.data);
    case AllClusters => RewriteDiscovered(s, s', job.id, job.data, m);
    case CloudOf(host) => RewrittenHolds(s, s', Root(site), job.data);
  }

  lemma AfterJobCanHold(site: Site, m: map<string, Tree>, job: Job)
    requires CanHold(site, m) && ValidJob(job)
    ensures CanHold(site, AfterJob(site, m, job))
  {
    var data := Expansion(job.data);
    ExpandIsValid(Dir(job.data));
    match site
    case SystemsOf(_) => ReplacedIsSystems(m, job.id, data);
    case AllClusters => WithDiscoveredIsClusters(m, job.id, data);
    case CloudOf(_) =>
  }

  lemma ReplacedIsSystems(m: map<string, Tree>, id: string, data: map<string, Tree>)
    requires Systems(m) && ValidComponent(id) && Valid(Dir(data))
    ensures Systems(Replaced(m, id, Dir(data)))
  {
    var m' := Replaced(m, id, Dir(data));
    forall k | k in m' ensures ValidComponent(k) && m'[k].Dir? && Valid(m'[k]) {
      ReplacedHas(m, id, Dir(data), k);
    }
  }

  lemma WithDiscoveredIsClusters(m: map<string, Tree>, id: string, data: map<string, Tree>)
    requires Clusters(m) && ValidComponent(id) && Valid(Dir(data))
    ensures Clusters(WithDiscovered(m, id, data))
  {
    var child := Replaced(ChildOf(m, id), DISCOVERED, Dir(data));
    ChildIsStorableToo(m, id);
    ReplacedIsSystems(ChildOf(m, id), DISCOVERED, data);
    assert DISCOVERED in child;
    ClustersWith(m, id, child);
  }

  lemma ClustersWith(m: map<string, Tree>, id: string, child: map<string, Tree>)
    requires Clusters(m) && ValidComponent(id) && Systems(child) && child != map[]
    ensures Clusters(m[id := Dir(child)])
  {
    DirWith(m, id, Dir(child));
    assert forall k | k in m[id := Dir(child)] :: k == id || (k in m && m[id := Dir(child)][k] == m[k]);
  }

  // ---------------------------------------------------------------- states and steps

  /** What a writer is about to do. */
  datatype Phase = Idle | Locked(job: Job) | Putting(job: Job, todo: set<Pair>)

  datatype Holder = Free | HeldBy(w: nat)

  /** The store, the holder of the lock, what each writer is at, the store at the moment the lock
      was taken, and the jobs whose writers have given the lock back, in that order. */
  datatype State = State(store: Entries, holder: Holder, phases: map<nat, Phase>, start: Entries, log: seq<Job>)

  function PhaseOf(st: State, w: nat): Phase {
    if w in st.phases then st.phases[w] else Idle
  }

  function PutsOf(site: Site, job: Job): set<Pair> {
    PutPairs(PathOf(site, job.id), Dir(job.data))
  }

  /** The lock is safe: it is granted only while nobody holds it. */
  ghost predicate Acquire(site: Site, st: State, st': State, w: nat, job: Job) {
    && st.holder.Free? && PhaseOf(st, w).Idle? && ValidJob(job)
    && SameBut(st.store, st'.store, LockKey(site))
    && st' == State(st'.store, HeldBy(w), st.phases[w := Locked(job)], st'.store, st.log)
  }

  predicate Delete(site: Site, st: State, st': State, w: nat) {
    && PhaseOf(st, w).Locked?
    && var job := PhaseOf(st, w).job;
       st' == st.(
         store := WithoutPrefix(st.store, PathOf(site, job.id)),
         phases := st.phases[w := Putting(job, PutsOf(site, job))])
  }

  /** A pair of the writer's own tree; nothing keeps it from being put twice. */
  predicate PutOne(site: Site, st: State, st': State, w: nat, p: Pair) {
    && PhaseOf(st, w).Putting? && p in PutsOf(site, PhaseOf(st, w).job)
    && var ph := PhaseOf(st, w);
       st' == st.(
         store := st.store[p.key := p.e],
         phases := st.phases[w := Putting(ph.job, ph.todo - {p})])
  }

  predicate Unlock(st: State, st': State, w: nat) {
    && PhaseOf(st, w).Putting? && PhaseOf(st, w).todo == {}
    && st' == st.(holder := Free, phases := st.phases[w := Idle], log := st.log + [PhaseOf(st, w).job])
  }

  /** A step of writer w. */
  ghost predicate StepOf(site: Site, st: State, st': State, w: nat) {
    || (exists job :: Acquire(site, st, st', w, job))
    || Delete(site, st, st', w)
    || (exists p :: PutOne(site, st, st', w, p))
    || Unlock(st, st', w)
  }

  ghost predicate Next(site: Site, st: State, st': State) {
    exists w: nat :: StepOf(site, st, st', w)
  }

  ghost predicate Init(site: Site, st: State, m: map<string, Tree>) {
    && st.holder.Free? && st.phases == map[] && st.log == []
    && CanHold(site, m) && Holds(st.store, Root(site), m)
  }

  ghost predicate IsRun(site: Site, run: seq<State>, m: map<string, Tree>) {
    && GoodSite(site) && run != [] && Init(site, run[0], m)
    && forall i, j | 0 <= i < j < |run| && j == i + 1 :: Next(site, run[i], run[j])
  }

  // ---------------------------------------------------------------- the data after some jobs

  /** What the site holds after the jobs have been done one after the other. */
  ghost function After(site: Site, m: map<string, Tree>, log: seq<Job>): map<string, Tree> {
    if log == [] then m else AfterJob(site, After(site, m, log[..|log| - 1]), log[|log| - 1])
  }

  lemma {:induction false} AfterCanHold(site: Site, m: map<string, Tree>, log: seq<Job>)
    requires CanHold(site, m) && LogIsValid(log)
    ensures CanHold(site, After(site, m, log))
  {
    if log != [] {
      var n := |log| - 1;
      AfterCanHold(site, m, log[..n]);
      assert ValidJob(log[n]);
      AfterJobCanHold(site, After(site, m, log[..n]), log[n]);
    }
  }

  /** What one job writes: a system, the discovered data of a cluster, or all cloud data. */
  predicate HasPiece(site: Site, m: map<string, Tree>, id: string) {
    match site
    case SystemsOf(_) => id in m
    case AllClusters => DISCOVERED in ChildOf(m, id)
    case CloudOf(_) => true
  }

  function Piece(site: Site, m: map<string, Tree>, id: string): Tree
    requires HasPiece(site, m, id)
  {
    match site
    case SystemsOf(_) => m[id]
    case AllClusters => ChildOf(m, id)[DISCOVERED]
    case CloudOf(_) => Dir(m)
  }

  /** A job for other writes over the piece of id, or deletes it. */
  predicate Touches(site: Site, other: string, id: string) {
    match site
    case SystemsOf(_) => other <= id
    case AllClusters => other == id
    case CloudOf(_) => true
  }

  /** A job writes its own piece as a whole, and leaves the pieces alone that it does not touch. */
  lemma PieceAfterJob(site: Site, m: map<string, Tree>, job: Job, id: string)
    requires HasPiece(site, AfterJob(site, m, job), id)
    ensures Touches(site, job.id, id) ==>
      (site.CloudOf? || job.id == id) && Piece(site, AfterJob(site, m, job), id) == Dir(Expansion(job.data))
    ensures !Touches(site, job.id, id) ==>
      HasPiece(site, m, id) && Piece(site, AfterJob(site, m, job), id) == Piece(site, m, id)
  {
    match site
    case SystemsOf(_) => ReplacedHas(m, job.id, Dir(Expansion(job.data)), id);
    case AllClusters => ReplacedHas(ChildOf(m, job.id), DISCOVERED, Dir(Expansion(job.data)), DISCOVERED);
    case CloudOf(_) =>
  }

  /** No mix: every piece that is stored is one writer's data, that of the last job that touched it;
      or it is what was there at the start. */
  lemma {:induction false} EachPieceIsOneJobs(site: Site, m: map<string, Tree>, log: seq<Job>, id: string)
    requires HasPiece(site, After(site, m, log), id)
    ensures IsFromStart(site, m, log, id) || exists j :: IsFromJob(site, m, log, id, j)
  {
    if log != [] {
      var n := |log| - 1;
      PieceAfterJob(site, After(site, m, log[..n]), log[n], id);
      if Touches(site, log[n].id, id) {
        assert IsFromJob(site, m, log, id, n);
      } else {
        EachPieceIsOneJobs(site, m, log[..n], id);
        if j :| IsFromJob(site, m, log[..n], id, j) {
          FromJobStill(site, m, log[..n], log, id, j);
        } else {
          FromStartStill(site, m, log[..n], log, id);
        }
      }
    }
  }

  /** One more job, which does not touch the piece. */
  ghost predicate Untouched(site: Site, m: map<string, Tree>, before: seq<Job>, log: seq<Job>, id: string) {
    && |log| == |before| + 1 && (forall i | 0 <= i < |before| :: before[i] == log[i])
    && !Touches(site, log[|before|].id, id)
    && HasPiece(site, After(site, m, before), id) && HasPiece(site, After(site, m, log), id)
    && Piece(site, After(site, m, log), id) == Piece(site, After(site, m, before), id)
  }

  lemma FromJobStill(site: Site, m: map<string, Tree>, before: seq<Job>, log: seq<Job>, id: string, j: int)
    requires Untouched(site, m, before, log, id) && IsFromJob(site, m, before, id, j)
    ensures IsFromJob(site, m, log, id, j)
  {
    assert before[j] == log[j];
  }

  lemma FromStartStill(site: Site, m: map<string, Tree>, before: seq<Job>, log: seq<Job>, id: string)
    requires Untouched(site, m, before, log, id) && IsFromStart(site, m, before, id)
    ensures IsFromStart(site, m, log, id)
  {
  }

  ghost predicate IsFromStart(site: Site, m: map<string, Tree>, log: seq<Job>, id: string)
    requires HasPiece(site, After(site, m, log), id)
  {
    && HasPiece(site, m, id) && Piece(site, After(site, m, log), id) == Piece(site, m, id)
    && forall i | 0 <= i < |log| :: !Touches(site, log[i].id, id)
  }

  /** The piece of id is the data of job j, and no later job touches it. */
  ghost predicate IsFromJob(site: Site, m: map<string, Tree>, log: seq<Job>, id: string, j: int)
    requires HasPiece(site, After(site, m, log), id)
  {
    && 0 <= j < |log| && Touches(site, log[j].id, id) && (site.CloudOf? || log[j].id == id)
    && Piece(site, After(site, m, log), id) == Dir(Expansion(log[j].data))
    && forall i | j < i < |log| :: !Touches(site, log[i].id, id)
  }

  /** What else a cluster has, such as its user settings, no job changes. */
  lemma {:induction false} SettingsStay(m: map<string, Tree>, log: seq<Job>, id: string, k: string)
    requires id in m && k in ChildOf(m, id) && !(DISCOVERED <= k)
    ensures var child := ChildOf(After(AllClusters, m, log), id); k in child && child[k] == ChildOf(m, id)[k]
  {
    if log != [] {
      var n := |log| - 1;
      SettingsStay(m, log[..n], id, k);
      var before := After(AllClusters, m, log[..n]);
      ReplacedHas(ChildOf(before, log[n].id), DISCOVERED, Dir(Expansion(log[n].data)), k);
    }
  }

  // ---------------------------------------------------------------- the invariant

  ghost predicate Inv(site: Site, st: State, m: map<string, Tree>) {
    && LogIsValid(st.log) && OnlyHolder(st)
    && match st.holder
       case Free => HoldsJobs(site, st.store, m, st.log)
       case HeldBy(w) => HoldsJobs(site, st.start, m, st.log) && Underway(site, st.start, st.store, PhaseOf(st, w))
  }

  ghost predicate LogIsValid(log: seq<Job>) {
    forall j | 0 <= j < |log| :: ValidJob(log[j])
  }

  /** Whoever is not idle holds the lock. */
  predicate OnlyHolder(st: State) {
    forall w | w in st.phases && !st.phases[w].Idle? :: st.holder == HeldBy(w)
  }

  ghost predicate HoldsJobs(site: Site, s: Entries, m: map<string, Tree>, log: seq<Job>) {
    Holds(s, Root(site), After(site, m, log))
  }

  /** While the lock is held, the store is the one at the moment it was taken, less what was at the
      path and with what has been put so far. */
  ghost predicate Underway(site: Site, start: Entries, s: Entries, ph: Phase) {
    match ph
    case Idle => false
    case Locked(job) => s == start && ValidJob(job)
    case Putting(job, todo) =>
      ValidJob(job) && IsPart(WithoutPrefix(start, PathOf(site, job.id)), s, PutsOf(site, job), todo)
  }

  /** All the pairs but those that are still to be put have been put. */
  ghost predicate IsPart(before: Entries, s: Entries, all: set<Pair>, todo: set<Pair>) {
    todo <= all && Written(before, s, all - todo, true)
  }

  lemma NothingPut(before: Entries, all: set<Pair>)
    ensures IsPart(before, before, all, all)
  {
    assert all - all == {};
  }

  lemma EverythingPut(before: Entries, s: Entries, all: set<Pair>)
    requires IsPart(before, s, all, {})
    ensures Written(before, s, all, true)
  {
    assert all - {} == all;
  }

  lemma PutOneMore(before: Entries, s: Entries, all: set<Pair>, todo: set<Pair>, p: Pair)
    requires IsPart(before, s, all, todo) && p in all
    ensures IsPart(before, s[p.key := p.e], all, todo - {p})
  {
    assert Written(s, s[p.key := p.e], {p}, true) by {
      assert p in {p};
      assert forall e, key | Pair(key, e) in {p} :: key == p.key;
    }
    WrittenThen(before, s, s[p.key := p.e], all - todo, {p}, true);
    assert (all - todo) + {p} == all - (todo - {p});
  }

  lemma AcquireHolds(site: Site, s: Entries, s': Entries, m: map<string, Tree>, log: seq<Job>)
    requires GoodSite(site) && SameBut(s, s', LockKey(site)) && HoldsJobs(site, s, m, log)
    ensures HoldsJobs(site, s', m, log)
  {
    SiteBase(site);
    HoldsWithLock(s, s', LockKey(site), Root(site), After(site, m, log));
  }

  lemma InvAcquire(site: Site, st: State, st': State, w: nat, job: Job, m: map<string, Tree>)
    requires GoodSite(site) && Inv(site, st, m) && Acquire(site, st, st', w, job)
    ensures Inv(site, st', m)
  {
    AcquireHolds(site, st.store, st'.store, m, st.log);
  }

  lemma InvDelete(site: Site, st: State, st': State, w: nat, m: map<string, Tree>)
    requires Inv(site, st, m) && Delete(site, st, st', w)
    ensures Inv(site, st', m)
  {
    var job := PhaseOf(st, w).job;
    NothingPut(WithoutPrefix(st.start, PathOf(site, job.id)), PutsOf(site, job));
  }

  lemma InvPutOne(site: Site, st: State, st': State, w: nat, p: Pair, m: map<string, Tree>)
    requires Inv(site, st, m) && PutOne(site, st, st', w, p)
    ensures Inv(site, st', m)
  {
    var ph := PhaseOf(st, w);
    PutOneMore(WithoutPrefix(st.start, PathOf(site, ph.job.id)), st.store, PutsOf(site, ph.job), ph.todo, p);
  }

  lemma UnlockHolds(site: Site, start: Entries, s: Entries, job: Job, m: map<string, Tree>)
    requires GoodSite(site) && CanHold(site, m) && Holds(start, Root(site), m)
    requires Underway(site, start, s, Putting(job, {}))
    ensures Holds(s, Root(site), AfterJob(site, m, job))
  {
    EverythingPut(WithoutPrefix(start, PathOf(site, job.id)), s, PutsOf(site, job));
    RewriteSite(site, start, s, m, job);
  }

  lemma AfterOneMore(site: Site, m: map<string, Tree>, log: seq<Job>, job: Job)
    ensures After(site, m, log + [job]) == AfterJob(site, After(site, m, log), job)
  {
    assert (log + [job])[..|log|] == log;
  }

  lemma HoldsOneMore(site: Site, start: Entries, s: Entries, m: map<string, Tree>, log: seq<Job>, job: Job)
    requires GoodSite(site) && CanHold(site, m) && LogIsValid(log) && HoldsJobs(site, start, m, log)
    requires Underway(site, start, s, Putting(job, {}))
    ensures HoldsJobs(site, s, m, log + [job]) && LogIsValid(log + [job])
  {
    AfterCanHold(site, m, log);
    UnlockHolds(site, start, s, job, After(site, m, log));
    AfterOneMore(site, m, log, job);
  }

  lemma InvUnlock(site: Site, st: State, st': State, w: nat, m: map<string, Tree>)
    requires GoodSite(site) && CanHold(site, m)
    requires Inv(site, st, m) && Unlock(st, st', w)
    ensures Inv(site, st', m)
  {
    HoldsOneMore(site, st.start, st.store, m, st.log, PhaseOf(st, w).job);
  }

  lemma InvStep(site: Site, st: State, st': State, w: nat, m: map<string, Tree>)
    requires GoodSite(site) && CanHold(site, m) && Inv(site, st, m) && StepOf(site, st, st', w)
    ensures Inv(site, st', m)
  {
    if job :| Acquire(site, st, st', w, job) {
      InvAcquire(site, st, st', w, job, m);
    } else if Delete(site, st, st', w) {
      InvDelete(site, st, st', w, m);
    } else if p :| PutOne(site, st, st', w, p) {
      InvPutOne(site, st, st', w, p, m);
    } else {
      InvUnlock(site, st, st', w, m);
    }
  }

  lemma InvNext(site: Site, st: State, st': State, m: map<string, Tree>)
    requires GoodSite(site) && CanHold(site, m) && Inv(site, st, m) && Next(site, st, st')
    ensures Inv(site, st', m)
  {
    var w: nat :| StepOf(site, st, st', w);
    InvStep(site, st, st', w, m);
  }

  lemma RunSteps(site: Site, run: seq<State>, m: map<string, Tree>, i: nat)
    requires IsRun(site, run, m) && i + 1 < |run|
    ensures Next(site, run[i], run[i + 1])
  {
  }

  lemma {:induction false} InvHolds(site: Site, run: seq<State>, m: map<string, Tree>, i: nat)
    requires IsRun(site, run, m) && i < |run|
    ensures Inv(site, run[i], m)
  {
    if i > 0 {
      InvHolds(site, run, m, i - 1);
      RunSteps(site, run, m, i - 1);
      InvNext(site, run[i - 1], run[i], m);
    }
  }

  // ---------------------------------------------------------------- what a store does is a run

  /** The step of writer w that an operation of the store is. */
  ghost predicate StepByOp(site: Site, st: State, st': State, w: nat, job: Job, op: Op) {
    match op
    case Acquired(key, e) => key == LockKey(site) && st'.store == st.store[key := e] && Acquire(site, st, st', w, job)
    case Deleted(prefix) => prefix == PathOf(site, job.id) && Delete(site, st, st', w)
    case PutDone(p) => PutOne(site, st, st', w, p)
    case Released(key) => key == LockKey(site) && Unlock(st, st', w)
  }

  /** One successful store, from the first moment to the second. */
  datatype Call = Call(w: nat, job: Job, initial: Entries, before: seq<Op>, after: seq<Op>)

  ghost predicate IsCall(site: Site, st: State, c: Call) {
    && ValidJob(c.job) && st.holder.Free? && PhaseOf(st, c.w).Idle? && st.store == Replay(c.initial, c.before)
    && IsStoreTrace(c.before, c.after, LockKey(site), PathOf(site, c.job.id), c.job.data, true)
  }

  /** The same by position. */
  ghost predicate HasShape(site: Site, st: State, c: Call) {
    var k := |c.before|;
    && ValidJob(c.job) && st.holder.Free? && PhaseOf(st, c.w).Idle?
    && k + 2 < |c.after| && st.store == StoreAfter(c, k)
    && c.after[k].Acquired? && c.after[k].key == LockKey(site)
    && c.after[k + 1] == Deleted(PathOf(site, c.job.id))
    && c.after[|c.after| - 1] == Released(LockKey(site))
    && PutsAll(site, c)
  }

  ghost predicate PutsAll(site: Site, c: Call)
    requires |c.after| > 0
  {
    var n := |c.after| - 1;
    && (forall i | |c.before| + 2 <= i < n :: c.after[i].PutDone? && c.after[i].p in PutsOf(site, c.job))
    && Todo(PutsOf(site, c.job), c, n) == {}
  }

  /** The pairs that have not yet been put after n operations. */
  function Todo(all: set<Pair>, c: Call, n: nat): set<Pair>
    requires n <= |c.after|
  {
    set p | p in all && !PutBefore(c, n, p)
  }

  predicate PutBefore(c: Call, n: nat, p: Pair)
    requires n <= |c.after|
  {
    exists i :: |c.before| <= i < n && c.after[i] == PutDone(p)
  }

  ghost function StoreAfter(c: Call, n: nat): Entries
    requires n <= |c.after|
  {
    Replay(c.initial, c.after[..n])
  }

  /** The states that a call goes through after the first one. */
  ghost function TakenState(st: State, c: Call): State
    requires |c.before| < |c.after|
  {
    var s := StoreAfter(c, |c.before| + 1);
    State(s, HeldBy(c.w), st.phases[c.w := Locked(c.job)], s, st.log)
  }

  ghost function PuttingState(all: set<Pair>, st: State, c: Call, n: nat): State
    requires |c.before| < |c.after| && n <= |c.after|
  {
    TakenState(st, c).(store := StoreAfter(c, n), phases := st.phases[c.w := Putting(c.job, Todo(all, c, n))])
  }

  ghost function FinishedState(st: State, c: Call): State
    requires |c.before| < |c.after|
  {
    State(StoreAfter(c, |c.after|), Free, st.phases[c.w := Idle], StoreAfter(c, |c.before| + 1), st.log + [c.job])
  }

  /** The state of the protocol after n operations of the store, counted from its creation. */
  ghost function StateAfter(site: Site, st: State, c: Call, n: nat): State
    requires |c.before| < |c.after| && |c.before| <= n <= |c.after|
  {
    if n == |c.before| then st
    else if n == |c.after| then FinishedState(st, c)
    else if n == |c.before| + 1 then TakenState(st, c)
    else PuttingState(PutsOf(site, c.job), st, c, n)
  }

  lemma ReplayNext(c: Call, n: nat)
    requires n < |c.after|
    ensures StoreAfter(c, n + 1) == Apply(StoreAfter(c, n), c.after[n])
  {
    ReplayOneMore(c.initial, c.after[..n], c.after[n]);
    assert c.after[..n + 1] == c.after[..n] + [c.after[n]];
  }

  /** The operations of a call, in their order. */
  lemma CallShape(site: Site, st: State, c: Call)
    requires IsCall(site, st, c)
    ensures HasShape(site, st, c)
  {
    var e, last :| c.after == last + [Released(LockKey(site))] &&
      IsWriteTrace(c.before, last, LockKey(site), PathOf(site, c.job.id), c.job.data, e, true);
    var deleted := c.before + [Acquired(LockKey(site), e), Deleted(PathOf(site, c.job.id))];
    var k := |c.before|;
    RecordedPutsAll(site, c, deleted, last);
    assert deleted[k] == last[k] && deleted[k + 1] == last[k + 1];
    assert c.after[..k] == c.before by {
      assert forall i | 0 <= i < k :: c.after[i] == last[i] == deleted[i] == c.before[i];
    }
  }

  lemma RecordedPutsAll(site: Site, c: Call, deleted: seq<Op>, last: seq<Op>)
    requires |deleted| == |c.before| + 2 && Recorded(deleted, last, PutsOf(site, c.job), true)
    requires |c.after| == |last| + 1 && forall i | 0 <= i < |last| :: c.after[i] == last[i]
    ensures PutsAll(site, c)
  {
    forall p | p in PutsOf(site, c.job) ensures PutBefore(c, |c.after| - 1, p) {
      assert PutBetween(deleted, last, p);
      var i :| |deleted| <= i < |last| && last[i] == PutDone(p);
      assert c.after[i] == PutDone(p);
    }
    assert forall i | |c.before| + 2 <= i < |last| :: c.after[i] == last[i];
  }

  lemma TodoNext(all: set<Pair>, c: Call, n: nat)
    requires |c.before| <= n < |c.after| && c.after[n].PutDone?
    ensures Todo(all, c, n + 1) == Todo(all, c, n) - {c.after[n].p}
  {
    forall p ensures PutBefore(c, n + 1, p) <==> PutBefore(c, n, p) || p == c.after[n].p {
      if PutBefore(c, n, p) {
        var i :| |c.before| <= i < n && c.after[i] == PutDone(p);
        assert |c.before| <= i < n + 1 && c.after[i] == PutDone(p);
      }
      assert p == c.after[n].p ==> c.after[n] == PutDone(p);
    }
  }

  lemma TodoAtFirst(all: set<Pair>, c: Call, n: nat)
    requires n == |c.before| + 2 <= |c.after| && !c.after[n - 2].PutDone? && !c.after[n - 1].PutDone?
    ensures Todo(all, c, n) == all
  {
    forall p ensures !PutBefore(c, n, p) {
      assert c.after[n - 2] != PutDone(p) && c.after[n - 1] != PutDone(p);
    }
  }

  lemma AcquireStep(site: Site, st: State, c: Call)
    requires HasShape(site, st, c)
    ensures StepByOp(site, st, TakenState(st, c), c.w, c.job, c.after[|c.before|])
  {
    ReplayNext(c, |c.before|);
  }

  lemma DeleteStep(site: Site, st: State, c: Call, all: set<Pair>)
    requires var k := |c.before|; k + 2 < |c.after| && !c.after[k].PutDone?
    requires c.after[|c.before| + 1] == Deleted(PathOf(site, c.job.id)) && all == PutsOf(site, c.job)
    ensures var k := |c.before|;
      StepByOp(site, TakenState(st, c), PuttingState(all, st, c, k + 2), c.w, c.job, c.after[k + 1])
  {
    ReplayNext(c, |c.before| + 1);
    TodoAtFirst(all, c, |c.before| + 2);
    assert st.phases[c.w := Locked(c.job)][c.w := Putting(c.job, all)] == st.phases[c.w := Putting(c.job, all)];
  }

  lemma PutStep(site: Site, st: State, c: Call, all: set<Pair>, n: nat)
    requires |c.before| + 2 <= n < |c.after| && all == PutsOf(site, c.job)
    requires c.after[n].PutDone? && c.after[n].p in all
    ensures StepByOp(site, PuttingState(all, st, c, n), PuttingState(all, st, c, n + 1), c.w, c.job, c.after[n])
  {
    ReplayNext(c, n);
    TodoNext(all, c, n);
    assert st.phases[c.w := Putting(c.job, Todo(all, c, n))][c.w := Putting(c.job, Todo(all, c, n + 1))] ==
      st.phases[c.w := Putting(c.job, Todo(all, c, n + 1))];
  }

  lemma UnlockStep(site: Site, st: State, c: Call, all: set<Pair>, n: nat)
    requires |c.before| < |c.after| && n == |c.after| - 1 && Todo(all, c, n) == {}
    requires c.after[n] == Released(LockKey(site))
    ensures StepByOp(site, PuttingState(all, st, c, n), FinishedState(st, c), c.w, c.job, c.after[n])
  {
    ReplayNext(c, n);
    assert st.phases[c.w := Putting(c.job, {})][c.w := Idle] == st.phases[c.w := Idle];
  }

  lemma CallStep(site: Site, st: State, c: Call, n: nat)
    requires HasShape(site, st, c) && |c.before| <= n < |c.after|
    ensures StepByOp(site, StateAfter(site, st, c, n), StateAfter(site, st, c, n + 1), c.w, c.job, c.after[n])
  {
    if n == |c.before| {
      AcquireStep(site, st, c);
    } else if n == |c.before| + 1 {
      DeleteStep(site, st, c, PutsOf(site, c.job));
    } else if n < |c.after| - 1 {
      PutStep(site, st, c, PutsOf(site, c.job), n);
    } else {
      UnlockStep(site, st, c, PutsOf(site, c.job), n);
    }
  }

  /** The key and the path that SAPSystem.Store uses are those of its site. */
  lemma SystemPath(host: string, id: string)
    requires ValidComponent(host) && ValidComponent(id)
    ensures LockKey(SystemsOf(host)) == SapSystemsPath(host)
    ensures PathOf(SystemsOf(host), id) == JoinPath(SapSystemsPath(host), id)
  {
    SapSystemsBase(host);
    BaseBelow(SapSystemsPath(host), id);
  }

  lemma StepIsNext(site: Site, st: State, st': State, w: nat, job: Job, op: Op)
    requires StepByOp(site, st, st', w, job, op)
    ensures Next(site, st, st')
  {
    if op.Acquired? {
      assert Acquire(site, st, st', w, job);
    }
    if op.PutDone? {
      assert PutOne(site, st, st', w, op.p);
    }
    assert StepOf(site, st, st', w);
  }

  /** The step is one that the protocol allows, and the one that the operation is. */
  ghost predicate IsStepAt(site: Site, st: State, c: Call, n: nat)
    requires |c.before| <= n < |c.after|
  {
    var here, next := StateAfter(site, st, c, n), StateAfter(site, st, c, n + 1);
    Next(site, here, next) && StepByOp(site, here, next, c.w, c.job, c.after[n])
  }

  /** A successful store is a run of the protocol: it takes the lock, deletes, puts and gives the lock
      back, each of these a step of one writer; afterwards the lock is free and its job is finished. */
  lemma StoreIsRun(site: Site, st: State, c: Call)
    requires IsCall(site, st, c)
    ensures |c.before| + 3 <= |c.after| && StateAfter(site, st, c, |c.before|) == st
    ensures forall n: nat | |c.before| <= n < |c.after| :: IsStepAt(site, st, c, n)
    ensures var last := StateAfter(site, st, c, |c.after|);
      last.store == Replay(c.initial, c.after) && last.holder.Free? && last.log == st.log + [c.job]
  {
    CallShape(site, st, c);
    forall n: nat | |c.before| <= n < |c.after| ensures IsStepAt(site, st, c, n) {
      CallStep(site, st, c, n);
      StepIsNext(site, StateAfter(site, st, c, n), StateAfter(site, st, c, n + 1), c.w, c.job, c.after[n]);
    }
    assert c.after[..|c.after|] == c.after;
  }

  // ---------------------------------------------------------------- safety

  /** Whole trees only: in every run of any number of writers, whenever the lock is free the site
      holds exactly what the finished jobs make of it, in the order of their unlocking. */
  lemma StoreIsWholeWhenUnlocked(site: Site, run: seq<State>, m: map<string, Tree>, i: nat)
    requires IsRun(site, run, m) && i < |run| && run[i].holder.Free?
    ensures CanHold(site, After(site, m, run[i].log)) && Holds(run[i].store, Root(site), After(site, m, run[i].log))
  {
    InvHolds(site, run, m, i);
    AfterCanHold(site, m, run[i].log);
  }

  /** So a listing taken while the lock is free loads the finished jobs' trees. */
  lemma LoadWhenUnlocked(site: Site, run: seq<State>, m: map<string, Tree>, i: nat, pairs: seq<Pair>)
    requires IsRun(site, run, m) && i < |run| && run[i].holder.Free?
    requires IsAnswer(pairs, run[i].store, Root(site)) && Fits(Dir(After(site, m, run[i].log)))
    ensures Load(pairs, Root(site)) == Loaded(Reload(After(site, m, run[i].log)))
  {
    SiteBase(site);
    StoreIsWholeWhenUnlocked(site, run, m, i);
    LoadOfHolding(run[i].store, Root(site), After(site, m, run[i].log), pairs);
  }

  /** At most one writer is between taking and giving back the lock. */
  lemma OneWriterAtATime(site: Site, run: seq<State>, m: map<string, Tree>, i: nat, w: nat, w': nat)
    requires IsRun(site, run, m) && i < |run|
    requires !PhaseOf(run[i], w).Idle? && !PhaseOf(run[i], w').Idle?
    ensures w == w'
  {
    InvHolds(site, run, m, i);
  }

  // ---------------------------------------------------------------- what is loaded for each id

  /** Reloading keeps every piece, as its reloaded self. */
  lemma PieceReloaded(site: Site, m: map<string, Tree>, id: string)
    requires CanHold(site, m)
    ensures HasPiece(site, Reload(m), id) <==> HasPiece(site, m, id)
    ensures HasPiece(site, m, id) ==> Piece(site, Reload(m), id) == ReloadValue(Piece(site, m, id))
  {
    match site
    case SystemsOf(_) => ReloadKey(m, id);
    case AllClusters => ChildReloaded(m, id, DISCOVERED);
    case CloudOf(_) =>
  }

  lemma ChildReloaded(m: map<string, Tree>, id: string, k: string)
    requires Clusters(m)
    ensures k in ChildOf(Reload(m), id) <==> k in ChildOf(m, id)
    ensures k in ChildOf(m, id) ==> ChildOf(Reload(m), id)[k] == ReloadValue(ChildOf(m, id)[k])
  {
    ReloadKey(m, id);
    if id in m {
      assert ChildOf(Reload(m), id) == Reload(m[id].m);
      ReloadKey(m[id].m, k);
    }
  }

  ghost predicate JobsFit(m: map<string, Tree>, log: seq<Job>) {
    Fits(Dir(m)) && forall j | 0 <= j < |log| :: Fits(Dir(log[j].data))
  }

  lemma AfterJobFits(site: Site, m: map<string, Tree>, job: Job)
    requires CanHold(site, m) && ValidJob(job) && Fits(Dir(m)) && Fits(Dir(job.data))
    ensures Fits(Dir(AfterJob(site, m, job)))
  {
    var data := Expansion(job.data);
    ExpandIsValid(Dir(job.data));
    ExpandFits(Dir(job.data));
    match site
    case SystemsOf(_) => ReplacedIsStorable(m, job.id, data);
    case AllClusters =>
      ChildIsStorableToo(m, job.id);
      ReplacedIsStorable(ChildOf(m, job.id), DISCOVERED, data);
      DirWith(m, job.id, Dir(Replaced(ChildOf(m, job.id), DISCOVERED, Dir(data))));
    case CloudOf(_) =>
  }

  lemma {:induction false} AfterFits(site: Site, m: map<string, Tree>, log: seq<Job>)
    requires CanHold(site, m) && LogIsValid(log) && JobsFit(m, log)
    ensures Fits(Dir(After(site, m, log)))
  {
    if log != [] {
      var n := |log| - 1;
      AfterFits(site, m, log[..n]);
      AfterCanHold(site, m, log[..n]);
      assert ValidJob(log[n]);
      AfterJobFits(site, After(site, m, log[..n]), log[n]);
    }
  }

  /** The loaded piece of id is the reloaded data of job j, and no later job touches it. */
  ghost predicate LoadedFromJob(site: Site, loaded: map<string, Tree>, log: seq<Job>, id: string, j: int) {
    && 0 <= j < |log| && Touches(site, log[j].id, id) && (site.CloudOf? || log[j].id == id)
    && HasPiece(site, loaded, id) && Piece(site, loaded, id) == Dir(Reload(Expansion(log[j].data)))
    && forall i | j < i < |log| :: !Touches(site, log[i].id, id)
  }

  /** It is the reloaded piece of the start, and no job touches it. */
  predicate LoadedFromStart(site: Site, loaded: map<string, Tree>, m: map<string, Tree>, log: seq<Job>, id: string) {
    && HasPiece(site, m, id)
    && HasPiece(site, loaded, id) && Piece(site, loaded, id) == ReloadValue(Piece(site, m, id))
    && forall i | 0 <= i < |log| :: !Touches(site, log[i].id, id)
  }

  lemma LoadOfLog(site: Site, run: seq<State>, m: map<string, Tree>, i: nat, pairs: seq<Pair>)
    requires IsRun(site, run, m) && i < |run| && run[i].holder.Free? && JobsFit(m, run[i].log)
    requires IsAnswer(pairs, run[i].store, Root(site))
    ensures Load(pairs, Root(site)) == Loaded(Reload(After(site, m, run[i].log)))
    ensures CanHold(site, After(site, m, run[i].log))
  {
    InvHolds(site, run, m, i);
    StoreIsWholeWhenUnlocked(site, run, m, i);
    AfterFits(site, m, run[i].log);
    LoadWhenUnlocked(site, run, m, i, pairs);
  }

  /** No mix in what is loaded: in every run of any number of writers, a listing taken while the lock is
      free loads for an id one job's data as a whole, that of the last job that touched it, or what was
      there at the start, or nothing. */
  lemma LoadedPieceIsOneJobs(site: Site, run: seq<State>, m: map<string, Tree>, i: nat, pairs: seq<Pair>, id: string)
    requires IsRun(site, run, m) && i < |run| && run[i].holder.Free? && JobsFit(m, run[i].log)
    requires IsAnswer(pairs, run[i].store, Root(site))
    ensures Load(pairs, Root(site)).Loaded?
    ensures var loaded := Load(pairs, Root(site)).m;
      HasPiece(site, loaded, id) ==>
        || LoadedFromStart(site, loaded, m, run[i].log, id)
        || exists j :: LoadedFromJob(site, loaded, run[i].log, id, j)
  {
    var after := After(site, m, run[i].log);
    LoadOfLog(site, run, m, i, pairs);
    PieceReloaded(site, after, id);
    if HasPiece(site, after, id) {
      EachPieceIsOneJobs(site, m, run[i].log, id);
      if j :| IsFromJob(site, m, run[i].log, id, j) {
        assert LoadedFromJob(site, Reload(after), run[i].log, id, j);
      }
    }
  }

  /** Job j is for id, and no later one touches it. */
  predicate IsLastJob(site: Site, log: seq<Job>, id: string, j: nat) {
    j < |log| && log[j].id == id && forall i | j < i < |log| :: !Touches(site, log[i].id, id)
  }

  /** The data of the last job that touches an id, if it is for this id, is loaded. */
  lemma LastJobIsLoaded(site: Site, run: seq<State>, m: map<string, Tree>, i: nat, pairs: seq<Pair>, id: string, j: nat)
    requires IsRun(site, run, m) && i < |run| && run[i].holder.Free? && JobsFit(m, run[i].log)
    requires IsAnswer(pairs, run[i].store, Root(site)) && IsLastJob(site, run[i].log, id, j)
    ensures Load(pairs, Root(site)).Loaded? && LoadedFromJob(site, Load(pairs, Root(site)).m, run[i].log, id, j)
  {
    LoadOfLog(site, run, m, i, pairs);
    LastJobReloaded(site, m, run[i].log, id, j);
  }

  lemma LastJobReloaded(site: Site, m: map<string, Tree>, log: seq<Job>, id: string, j: nat)
    requires CanHold(site, After(site, m, log)) && IsLastJob(site, log, id, j)
    ensures LoadedFromJob(site, Reload(After(site, m, log)), log, id, j)
  {
    LastJobStays(site, m, log, id, j);
    PieceReloaded(site, After(site, m, log), id);
  }

  predicate HasThePiece(site: Site, m: map<string, Tree>, id: string, t: Tree) {
    HasPiece(site, m, id) && Piece(site, m, id) == t
  }

  lemma JobWritesPiece(site: Site, m: map<string, Tree>, job: Job)
    ensures HasThePiece(site, AfterJob(site, m, job), job.id, Dir(Expansion(job.data)))
    ensures Touches(site, job.id, job.id)
  {
    if site.SystemsOf? {
      ReplacedHas(m, job.id, Dir(Expansion(job.data)), job.id);
    }
  }

  lemma OtherPieceStays(site: Site, m: map<string, Tree>, job: Job, id: string, t: Tree)
    requires HasThePiece(site, m, id, t) && !Touches(site, job.id, id)
    ensures HasThePiece(site, AfterJob(site, m, job), id, t)
  {
    if site.SystemsOf? {
      ReplacedHas(m, job.id, Dir(Expansion(job.data)), id);
    }
  }

  lemma LastJobBefore(site: Site, log: seq<Job>, id: string, j: nat)
    requires IsLastJob(site, log, id, j) && j < |log| - 1
    ensures IsLastJob(site, log[..|log| - 1], id, j) && !Touches(site, log[|log| - 1].id, id)
    ensures log[..|log| - 1][j] == log[j]
  {
  }

  lemma AfterLast(site: Site, m: map<string, Tree>, log: seq<Job>) returns (before: seq<Job>, last: Job)
    requires log != []
    ensures before == log[..|log| - 1] && last == log[|log| - 1]
    ensures After(site, m, log) == AfterJob(site, After(site, m, before), last)
  {
    before, last := log[..|log| - 1], log[|log| - 1];
  }

  lemma {:induction false} LastJobStays(site: Site, m: map<string, Tree>, log: seq<Job>, id: string, j: nat)
    requires IsLastJob(site, log, id, j)
    ensures HasThePiece(site, After(site, m, log), id, Dir(Expansion(log[j].data))) && Touches(site, log[j].id, id)
    decreases |log|
  {
    var before, last := AfterLast(site, m, log);
    if j == |log| - 1 {
      JobWritesPiece(site, After(site, m, before), last);
    } else {
      LastJobBefore(site, log, id, j);
      LastJobStays(site, m, before, id, j);
      OtherPieceStays(site, After(site, m, before), last, id, Dir(Expansion(log[j].data)));
    }
  }

  /** What a cluster has beside its discovered data, such as its user settings, is loaded as it was at
      the start, whatever jobs there were. */
  lemma SettingsAreLoaded(run: seq<State>, m: map<string, Tree>, i: nat, pairs: seq<Pair>, id: string, k: string)
    requires IsRun(AllClusters, run, m) && i < |run| && run[i].holder.Free? && JobsFit(m, run[i].log)
    requires IsAnswer(pairs, run[i].store, Root(AllClusters))
    requires id in m && k in ChildOf(m, id) && !(DISCOVERED <= k)
    ensures Load(pairs, Root(AllClusters)).Loaded?
    ensures var child := ChildOf(Load(pairs, Root(AllClusters)).m, id);
      k in child && child[k] == ReloadValue(ChildOf(m, id)[k])
  {
    LoadOfLog(AllClusters, run, m, i, pairs);
    SettingsStay(m, run[i].log, id, k);
    ChildReloaded(After(AllClusters, m, run[i].log), id, k);
  }
}
