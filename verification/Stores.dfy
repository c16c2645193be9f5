/** Store and Load of SAP systems, clusters and cloud data: take the lock, delete what is at the
    path, write the new tree; and load everything below a common path. */
module Stores {
  import opened Strings
  import opened GoPath
  import opened Trees
  import opened KeyTrees
  import opened Decoder
  import opened Writes
  import opened Consul
  import opened RoundTrip
  import opened Slashes
  import opened Subtrees

  /** Only the entry at key may differ. */
  ghost predicate SameBut(before: Entries, after: Entries, key: string) {
    forall k | k != key :: SameAt(before, after, k)
  }

  /** A complete store: the lock has been taken, the path deleted and the tree written. */
  ghost predicate Stored(before: Entries, after: Entries, lockKey: string, path: string, data: map<string, Tree>) {
    exists locked :: SameBut(before, locked, lockKey) && Rewritten(locked, after, path, data)
  }

  /** What a store does, operation by operation: nothing if it does not get the lock; or it takes the
      lock, deletes the path, puts pairs of the tree, all of them if it succeeds, and gives the lock
      back. */
  ghost predicate IsStoreTrace(before: seq<Op>, after: seq<Op>, lockKey: string, path: string,
      data: map<string, Tree>, ok: bool)
  {
    || (!ok && after == before)
    || (!ok && exists e :: after == before + [Acquired(lockKey, e), Released(lockKey)])
    || exists e, last :: IsWriteTrace(before, last, lockKey, path, data, e, ok) && after == last + [Released(lockKey)]
  }

  ghost predicate IsWriteTrace(before: seq<Op>, last: seq<Op>, lockKey: string, path: string,
      data: map<string, Tree>, e: Entry, ok: bool)
  {
    Recorded(before + [Acquired(lockKey, e), Deleted(path)], last, PutPairs(path, Dir(data)), ok)
  }

  /** Every entry that was deleted or put between the two moments was so while the lock was held. */
  ghost predicate Guarded(before: seq<Op>, after: seq<Op>, lockKey: string) {
    forall i | |before| <= i < |after| && (after[i].Deleted? || after[i].PutDone?) :: HeldAt(after, i, lockKey)
  }

  ghost predicate HeldAt(ops: seq<Op>, i: nat, lockKey: string)
    requires i <= |ops|
  {
    lockKey in LocksAfter(ops[..i])
  }

  lemma StoreTraceIsGuarded(before: seq<Op>, after: seq<Op>, lockKey: string, path: string,
      data: map<string, Tree>, ok: bool)
    requires IsStoreTrace(before, after, lockKey, path, data, ok)
    ensures Guarded(before, after, lockKey)
  {
    if e, last :| IsWriteTrace(before, last, lockKey, path, data, e, ok) && after == last + [Released(lockKey)] {
      forall i | |before| <= i < |after| && (after[i].Deleted? || after[i].PutDone?)
        ensures HeldAt(after, i, lockKey)
      {
        var locked := before + [Acquired(lockKey, e)];
        assert locked + [Deleted(path)] == before + [Acquired(lockKey, e), Deleted(path)];
        assert last[..|locked|] == locked;
        LocksOneMore(before, Acquired(lockKey, e));
        StillHeld(last, |locked|, i, lockKey);
        assert after[..i] == last[..i];
      }
    }
  }

  lemma {:induction false} StillHeld(ops: seq<Op>, i: nat, j: nat, lockKey: string)
    requires i <= j <= |ops| && HeldAt(ops, i, lockKey)
    requires forall l | i <= l < j :: !ops[l].Released?
    ensures HeldAt(ops, j, lockKey)
    decreases j
  {
    if i < j {
      StillHeld(ops, i, j - 1, lockKey);
      assert ops[..j][..j - 1] == ops[..j - 1];
    }
  }

  /** The protocol that the three Store functions share. The lock is taken first and given back on
      every return; on an error the path is left as far as it has been written; other keys are never
      touched. */
  method ReplaceTree(kv: KV, lockKey: string, path: string, data: map<string, Tree>) returns (ok: bool)
    requires kv.Valid()
    modifies kv
    ensures kv.Valid() && kv.held == old(kv.held)
    ensures kv.refused == old(kv.refused) + if ok then 0 else 1
    ensures lockKey in old(kv.held) ==> !ok && kv.trace == old(kv.trace) && kv.store == old(kv.store)
    ensures IsStoreTrace(old(kv.trace), kv.trace, lockKey, path, data, ok)
    ensures Guarded(old(kv.trace), kv.trace, lockKey)
    ensures ok ==> Stored(old(kv.store), kv.store, lockKey, path, data)
    ensures CleanBase(WithSlash(path)) && KeysValid(Dir(data)) ==>
      forall key | !(path <= key) && key != lockKey :: SameAt(old(kv.store), kv.store, key)
  {
    ghost var before, traceBefore := kv.store, kv.trace;
    ghost var e;
    ok, e := kv.AcquireLockKey(lockKey);
    ghost var locked := kv.store;
    assert forall key | key != lockKey :: SameAt(before, locked, key);
    if !ok {
      return;
    }
    ok := kv.DeleteTree(path);
    if !ok {
      kv.Unlock(lockKey);
      assert kv.trace == traceBefore + [Acquired(lockKey, e), Released(lockKey)];
      return;
    }
    ghost var deleted := kv.store;
    assert kv.trace == traceBefore + [Acquired(lockKey, e), Deleted(path)];
    ok := kv.PutMap(path, data);
    assert IsWriteTrace(traceBefore, kv.trace, lockKey, path, data, e, ok);
    assert ok ==> SameBut(before, locked, lockKey) && Rewritten(locked, kv.store, path, data);
    if CleanBase(WithSlash(path)) && KeysValid(Dir(data)) {
      forall key | !(path <= key) && key != lockKey ensures SameAt(before, kv.store, key) {
        NotPutOutside(path, data, key);
        assert SameAt(before, locked, key) && SameAt(deleted, kv.store, key);
      }
    }
    kv.Unlock(lockKey);
    StoreTraceIsGuarded(traceBefore, kv.trace, lockKey, path, data, ok);
  }

  // ---------------------------------------------------------------- SAP systems

  lemma HoldsWithLock(s: Entries, s': Entries, key: string, root: string, m: map<string, Tree>)
    requires Holds(s, root, m) && SameBut(s, s', key) && (key == root || !(root <= key))
    ensures Holds(s', root, m)
  {
    forall k | k in s' && root <= k && k != root ensures InTree(Pair(k, s'[k]), root, Layout(Dir(m))) {
      assert SameAt(s, s', k);
    }
    forall w | InTree(w, root, Layout(Dir(m))) && w.key != root ensures w.key in s' && s'[w.key] == w.e {
      assert SameAt(s, s', w.key);
    }
  }

  /** A host's systems below their common path, by id. */
  predicate Systems(m: map<string, Tree>) {
    Valid(Dir(m)) && AllMaps(m)
  }

  /** SAPSystem.Store: the lock of the host's systems, then the path of the one system. */
  method StoreSapSystem(kv: KV, host: string, id: string, data: map<string, Tree>) returns (ok: bool)
    requires kv.Valid()
    modifies kv
    ensures kv.Valid() && kv.held == old(kv.held)
    ensures kv.refused == old(kv.refused) + if ok then 0 else 1
    ensures IsStoreTrace(old(kv.trace), kv.trace, SapSystemsPath(host), JoinPath(SapSystemsPath(host), id), data, ok)
    ensures Guarded(old(kv.trace), kv.trace, SapSystemsPath(host))
    ensures ok && ValidComponent(host) && ValidComponent(id) && SlashValid(Dir(data)) ==>
      forall m | Systems(m) && Holds(old(kv.store), SapSystemsPath(host), m) ::
        Holds(kv.store, SapSystemsPath(host), Replaced(m, id, Dir(Expansion(data))))
    ensures ValidComponent(host) && ValidComponent(id) && KeysValid(Dir(data)) ==>
      forall key | !(SapSystemsPath(host) + id <= key) && key != SapSystemsPath(host) ::
        SameAt(old(kv.store), kv.store, key)
  {
    var root := SapSystemsPath(host);
    ghost var before := kv.store;
    ok := ReplaceTree(kv, root, JoinPath(root, id), data);
    if ValidComponent(host) && ValidComponent(id) {
      SapSystemsBase(host);
      BaseBelow(root, id);
      if ok {
        forall m | Systems(m) && Holds(before, root, m) && SlashValid(Dir(data))
          ensures Holds(kv.store, root, Replaced(m, id, Dir(Expansion(data))))
        {
          StoredReplaces(before, kv.store, root, id, data, m);
        }
      }
    }
  }

  lemma StoredReplaces(before: Entries, after: Entries, root: string, id: string, data: map<string, Tree>,
      m: map<string, Tree>)
    requires CleanBase(root) && ValidComponent(id) && SlashValid(Dir(data)) && Systems(m)
    requires Holds(before, root, m) && Stored(before, after, root, root + id, data)
    ensures Holds(after, root, Replaced(m, id, Dir(Expansion(data))))
  {
    var locked :| SameBut(before, locked, root) && Rewritten(locked, after, root + id, data);
    HoldsWithLock(before, locked, root, root, m);
    RewriteChild(locked, after, root, m, id, data);
  }

  /** Store and then Load: the new system is there as its reloaded tree with nothing left of the
      old one, every system whose id does not begin with the new id is loaded as before, and
      systems whose ids do are gone. The lock is never loaded as a system. */
  lemma LoadAfterStoreSapSystem(s: Entries, host: string, id: string, data: map<string, Tree>, m: map<string, Tree>,
      pairs: seq<Pair>)
    requires ValidComponent(host) && ValidComponent(id) && SlashValid(Dir(data)) && Systems(m)
    requires Holds(s, SapSystemsPath(host), Replaced(m, id, Dir(Expansion(data))))
    requires IsAnswer(pairs, s, SapSystemsPath(host))
    requires Fits(Dir(data)) && Fits(Dir(m))
    ensures Load(pairs, SapSystemsPath(host)).Loaded?
    ensures var loaded := Load(pairs, SapSystemsPath(host)).m;
      && loaded.Keys == {id} + (set k | k in m && !(id <= k))
      && loaded[id] == Dir(Reload(Expansion(data)))
      && forall k | k in m && !(id <= k) :: loaded[k] == ReloadValue(m[k])
  {
    SapSystemsBase(host);
    ExpandIsValid(Dir(data));
    ExpandFits(Dir(data));
    LoadOfReplaced(s, SapSystemsPath(host), id, Expansion(data), m, pairs);
    ReloadOfReplaced(m, id, Expansion(data));
  }

  lemma LoadOfReplaced(s: Entries, root: string, id: string, data: map<string, Tree>, m: map<string, Tree>,
      pairs: seq<Pair>)
    requires GoodPrefix(root) && HasSuffixSlash(root) && ValidComponent(id) && Valid(Dir(data)) && Systems(m)
    requires Holds(s, root, Replaced(m, id, Dir(data))) && IsAnswer(pairs, s, root) && Fits(Dir(data)) && Fits(Dir(m))
    ensures Load(pairs, root) == Loaded(Reload(Replaced(m, id, Dir(data))))
  {
    ReplacedIsStorable(m, id, data);
    LoadOfHolding(s, root, Replaced(m, id, Dir(data)), pairs);
  }

  /** Store and then Load gives the old systems with the new one put among them if and only if no
      other id begins with the new one. */
  lemma StoreKeepsOthersExactly(s: Entries, s': Entries, root: string, m: map<string, Tree>, id: string,
      t: map<string, Tree>, pairs: seq<Pair>)
    requires GoodPrefix(root) && HasSuffixSlash(root) && ValidComponent(id) && Systems(m) && SlashValid(Dir(t))
    requires Holds(s, root, m) && Rewritten(s, s', root + id, t) && IsAnswer(pairs, s', root)
    requires Fits(Dir(m)) && Fits(Dir(t))
    ensures Load(pairs, root) == Loaded(Reload(m[id := Dir(Expansion(t))])) <==>
      forall k | k in m && k != id :: !(id <= k)
  {
    RewriteChild(s, s', root, m, id, t);
    ExpandIsValid(Dir(t));
    ExpandFits(Dir(t));
    LoadOfReplaced(s', root, id, Expansion(t), m, pairs);
    ReloadedOthersExactly(m, id, Expansion(t));
  }

  lemma ReloadedOthersExactly(m: map<string, Tree>, id: string, t: map<string, Tree>)
    requires AllMaps(m)
    ensures Reload(Replaced(m, id, Dir(t))) == Reload(m[id := Dir(t)]) <==> forall k | k in m && k != id :: !(id <= k)
  {
    if forall k | k in m && k != id :: !(id <= k) {
      assert Replaced(m, id, Dir(t)) == m[id := Dir(t)];
    } else {
      var k :| k in m && k != id && id <= k;
      ReloadKey(Replaced(m, id, Dir(t)), k);
      ReloadKey(m[id := Dir(t)], k);
    }
  }

  predicate IsHexDigit(c: char) {
    '0' <= c <= '9' || 'a' <= c <= 'f'
  }

  /** The ids that discovery makes: a digest in hexadecimal, or "-" for a system of unknown type. */
  predicate DiscoveredId(id: string) {
    id == "-" || (|id| == 32 && forall i | 0 <= i < |id| :: IsHexDigit(id[i]))
  }

  /** None of these ids begins with another one, so for them Store keeps all other systems. */
  lemma DiscoveredSystemsStay(s: Entries, s': Entries, root: string, m: map<string, Tree>, id: string,
      t: map<string, Tree>, pairs: seq<Pair>)
    requires GoodPrefix(root) && HasSuffixSlash(root) && Systems(m) && SlashValid(Dir(t))
    requires DiscoveredId(id) && forall k | k in m :: DiscoveredId(k)
    requires Holds(s, root, m) && Rewritten(s, s', root + id, t) && IsAnswer(pairs, s', root)
    requires Fits(Dir(m)) && Fits(Dir(t))
    ensures ValidComponent(id) && Load(pairs, root) == Loaded(Reload(m[id := Dir(Expansion(t))]))
  {
    DiscoveredIsComponent(id);
    forall k | k in m && k != id ensures !(id <= k) {
      assert id == "-" && |k| == 32 ==> IsHexDigit(k[0]);
    }
    StoreKeepsOthersExactly(s, s', root, m, id, t, pairs);
  }

  lemma DiscoveredIsComponent(id: string)
    requires DiscoveredId(id)
    ensures ValidComponent(id)
  {
    assert |id| == 32 ==> forall c | c in id :: IsHexDigit(c);
  }

  lemma ReplacedIsStorable(m: map<string, Tree>, id: string, data: map<string, Tree>)
    requires Systems(m) && ValidComponent(id) && Valid(Dir(data)) && Fits(Dir(data)) && Fits(Dir(m))
    ensures Systems(Replaced(m, id, Dir(data))) && Fits(Dir(Replaced(m, id, Dir(data))))
  {
    var m' := Replaced(m, id, Dir(data));
    forall k | k in m' ensures ChildIsStorable(k, m'[k]) {
      ReplacedHas(m, id, Dir(data), k);
      assert k != id ==> ChildIsStorable(k, m[k]);
    }
    assert forall k | k in m' :: ChildIsStorable(k, m'[k]) ==>
      ValidComponent(k) && m'[k].Dir? && Valid(m'[k]) && Fits(m'[k]);
  }

  predicate ChildIsStorable(k: string, t: Tree) {
    ValidComponent(k) && t.Dir? && Valid(t) && Fits(t)
  }

  lemma ReloadKey(m: map<string, Tree>, k: string)
    ensures k in Reload(m) <==> k in m && m[k] != EMPTY_STRING
    ensures k in Reload(m) ==> Reload(m)[k] == ReloadValue(m[k])
  {
  }

  lemma ReloadOfReplaced(m: map<string, Tree>, id: string, data: map<string, Tree>)
    requires AllMaps(m)
    ensures var loaded := Reload(Replaced(m, id, Dir(data)));
      && loaded.Keys == {id} + (set k | k in m && !(id <= k))
      && loaded[id] == Dir(Reload(data))
      && forall k | k in m && !(id <= k) :: loaded[k] == ReloadValue(m[k])
  {
    var loaded := Reload(Replaced(m, id, Dir(data)));
    forall k
      ensures k in loaded <==> k == id || (k in m && !(id <= k))
      ensures k in loaded && k != id ==> loaded[k] == ReloadValue(m[k])
      ensures k == id ==> loaded[k] == ReloadValue(Dir(data))
    {
      ReplacedHas(m, id, Dir(data), k);
      ReloadKey(Replaced(m, id, Dir(data)), k);
    }
  }

  // ---------------------------------------------------------------- clusters

  /** What below a cluster's path the store may hold: maps only, and no cluster without any. */
  predicate Clusters(m: map<string, Tree>) {
    Systems(m) && forall id | id in m :: m[id].m != map[] && AllMaps(m[id].m)
  }

  /** Map m with the discovered data of cluster id replaced; everything else of the cluster whose
      name does not begin with that of the discovered data, such as its user settings, stays. */
  function WithDiscovered(m: map<string, Tree>, id: string, data: map<string, Tree>): map<string, Tree> {
    m[id := Dir(Replaced(ChildOf(m, id), DISCOVERED, Dir(data)))]
  }

  /** Cluster.Store: only the designated coordinator stores, under the one lock of all clusters. */
  method StoreCluster(kv: KV, isDc: bool, id: string, data: map<string, Tree>) returns (ok: bool)
    requires kv.Valid()
    modifies kv
    ensures kv.Valid() && kv.held == old(kv.held)
    ensures kv.refused == old(kv.refused) + if ok then 0 else 1
    ensures !isDc ==> ok && kv.store == old(kv.store) && kv.trace == old(kv.trace)
    ensures isDc ==>
      IsStoreTrace(old(kv.trace), kv.trace, CLUSTERS_PATH, DiscoveredPath(id), data, ok)
    ensures Guarded(old(kv.trace), kv.trace, CLUSTERS_PATH)
    ensures isDc && ok && ValidComponent(id) && SlashValid(Dir(data)) ==>
      forall m | Clusters(m) && Holds(old(kv.store), CLUSTERS_PATH, m) ::
        Holds(kv.store, CLUSTERS_PATH, WithDiscovered(m, id, Expansion(data)))
    ensures ValidComponent(id) && KeysValid(Dir(data)) ==>
      forall key | !(DiscoveredPath(id) <= key) && key != CLUSTERS_PATH :: SameAt(old(kv.store), kv.store, key)
  {
    if !isDc {
      return true;
    }
    ghost var before := kv.store;
    ok := ReplaceTree(kv, CLUSTERS_PATH, DiscoveredPath(id), data);
    if ValidComponent(id) {
      ClusterBase(id);
      if ok {
        forall m | Clusters(m) && Holds(before, CLUSTERS_PATH, m) && SlashValid(Dir(data))
          ensures Holds(kv.store, CLUSTERS_PATH, WithDiscovered(m, id, Expansion(data)))
        {
          StoredDiscovered(before, kv.store, id, data, m);
        }
      }
    }
  }

  lemma StoredDiscovered(before: Entries, after: Entries, id: string, data: map<string, Tree>, m: map<string, Tree>)
    requires ValidComponent(id) && SlashValid(Dir(data)) && Clusters(m)
    requires Holds(before, CLUSTERS_PATH, m) && Stored(before, after, CLUSTERS_PATH, DiscoveredPath(id), data)
    ensures Holds(after, CLUSTERS_PATH, WithDiscovered(m, id, Expansion(data)))
  {
    var locked :| SameBut(before, locked, CLUSTERS_PATH) && Rewritten(locked, after, DiscoveredPath(id), data);
    HoldsWithLock(before, locked, CLUSTERS_PATH, CLUSTERS_PATH, m);
    RewriteDiscovered(locked, after, id, data, m);
  }

  lemma RewriteDiscovered(s: Entries, s': Entries, id: string, data: map<string, Tree>, m: map<string, Tree>)
    requires ValidComponent(id) && SlashValid(Dir(data)) && Clusters(m)
    requires Holds(s, CLUSTERS_PATH, m) && Rewritten(s, s', DiscoveredPath(id), data)
    ensures Holds(s', CLUSTERS_PATH, WithDiscovered(m, id, Expansion(data)))
  {
    ClusterBase(id);
    RewriteGrandchild(s, s', CLUSTERS_PATH, id, DISCOVERED, data, m);
  }

  lemma RewriteGrandchild(s: Entries, s': Entries, root: string, id: string, name: string, data: map<string, Tree>,
      m: map<string, Tree>)
    requires CleanBase(root) && CleanBase(root + id + "/") && CleanBase(WithSlash(root + id + "/" + name))
    requires ValidComponent(id) && ValidComponent(name) && SlashValid(Dir(data)) && Clusters(m)
    requires Holds(s, root, m) && Rewritten(s, s', root + id + "/" + name, data)
    ensures Holds(s', root, m[id := Dir(Replaced(ChildOf(m, id), name, Dir(Expansion(data))))])
  {
    var sub := root + id + "/";
    HoldsBelow(s, root, m, id);
    ChildIsStorableToo(m, id);
    RewriteChild(s, s', sub, ChildOf(m, id), name, data);
    OnlyGrandchildChanged(s, s', sub, name, data);
    NoEntryAtChild(s, root, m, id);
    assert SameAt(s, s', sub);
    DirWith(m, id, Dir(Replaced(ChildOf(m, id), name, Dir(Expansion(data)))));
    HoldsAbove(s, s', root, m, id, Replaced(ChildOf(m, id), name, Dir(Expansion(data))));
  }

  lemma ChildIsStorableToo(m: map<string, Tree>, id: string)
    requires Clusters(m)
    ensures Systems(ChildOf(m, id)) && (Fits(Dir(m)) ==> Fits(Dir(ChildOf(m, id))))
  {
    if id in m {
      assert Dir(ChildOf(m, id)) == m[id];
    }
  }

  lemma DirWith(m: map<string, Tree>, id: string, t: Tree)
    requires Valid(Dir(m)) && Valid(t) && t.Dir? && ValidComponent(id)
    ensures Valid(Dir(m[id := t])) && (Fits(Dir(m)) && Fits(t) ==> Fits(Dir(m[id := t])))
  {
    assert forall k | k in m[id := t] :: k == id || (k in m && m[id := t][k] == m[k]);
  }

  lemma OnlyGrandchildChanged(s: Entries, s': Entries, sub: string, name: string, data: map<string, Tree>)
    requires CleanBase(WithSlash(sub + name)) && name != "" && KeysValid(Dir(data)) &&
      Rewritten(s, s', sub + name, data)
    ensures forall key | !(sub <= key) || key == sub :: SameAt(s, s', key)
  {
    forall key | !(sub <= key) || key == sub ensures SameAt(s, s', key) {
      assert sub <= sub + name && |sub| < |sub + name|;
      PrefixTransitive(sub, sub + name, key);
      RewriteKeepsOthers(s, s', sub + name, data, key);
    }
  }

  /** A cluster's own key holds nothing: only an empty map would leave a marker there. */
  lemma NoEntryAtChild(s: Entries, root: string, m: map<string, Tree>, id: string)
    requires Clusters(m) && Holds(s, root, m) && ValidComponent(id)
    ensures root + id + "/" !in s
  {
    var sub := root + id + "/";
    if sub in s {
      var w := Pair(sub, s[sub]);
      assert root <= sub && sub != root;
      assert InTree(w, root, Layout(Dir(m)));
      if m == map[] { NothingInEmpty(w, root); }
      InTreeByChild(w, root, m);
      var k :| OfChild(w, root, m, k);
      SameChild(root, k, id, sub);
      NoMarkerInNonEmpty(w, sub, m[k].m);
      assert false;
    }
  }

  /** Store and then Load: the new discovered data is loaded, every other cluster as before, and of
      the same cluster everything that is not below the discovered data as before. */
  lemma LoadAfterStoreCluster(s: Entries, id: string, data: map<string, Tree>, m: map<string, Tree>, pairs: seq<Pair>)
    requires ValidComponent(id) && SlashValid(Dir(data)) && Clusters(m)
    requires Fits(Dir(data)) && Fits(Dir(m))
    requires Holds(s, CLUSTERS_PATH, WithDiscovered(m, id, Expansion(data))) && IsAnswer(pairs, s, CLUSTERS_PATH)
    ensures Load(pairs, CLUSTERS_PATH).Loaded?
    ensures var loaded := Load(pairs, CLUSTERS_PATH).m;
      && loaded.Keys == m.Keys + {id}
      && (forall k | k in m && k != id :: loaded[k] == ReloadValue(m[k]))
      && loaded[id].Dir? && DISCOVERED in loaded[id].m && loaded[id].m[DISCOVERED] == Dir(Reload(Expansion(data)))
      && forall k | k in ChildOf(m, id) && !(DISCOVERED <= k) ::
        k in loaded[id].m && loaded[id].m[k] == ReloadValue(ChildOf(m, id)[k])
  {
    ClusterBase(id);
    ExpandIsValid(Dir(data));
    ExpandFits(Dir(data));
    LoadGrandchild(s, CLUSTERS_PATH, id, DISCOVERED, Expansion(data), m, pairs);
  }

  lemma LoadGrandchild(s: Entries, root: string, id: string, name: string, data: map<string, Tree>,
      m: map<string, Tree>, pairs: seq<Pair>)
    requires GoodPrefix(root) && HasSuffixSlash(root)
    requires ValidComponent(id) && ValidComponent(name)
    requires Valid(Dir(data)) && Clusters(m) && Fits(Dir(data)) && Fits(Dir(m))
    requires Holds(s, root, m[id := Dir(Replaced(ChildOf(m, id), name, Dir(data)))]) && IsAnswer(pairs, s, root)
    ensures Load(pairs, root).Loaded?
    ensures var loaded := Load(pairs, root).m;
      && loaded.Keys == m.Keys + {id}
      && (forall k | k in m && k != id :: loaded[k] == ReloadValue(m[k]))
      && loaded[id].Dir? && name in loaded[id].m && loaded[id].m[name] == Dir(Reload(data))
      && forall k | k in ChildOf(m, id) && !(name <= k) ::
        k in loaded[id].m && loaded[id].m[k] == ReloadValue(ChildOf(m, id)[k])
  {
    var child' := Replaced(ChildOf(m, id), name, Dir(data));
    ChildIsStorableToo(m, id);
    ReplacedIsStorable(ChildOf(m, id), name, data);
    DirWith(m, id, Dir(child'));
    LoadOfHolding(s, root, m[id := Dir(child')], pairs);
    ReloadOfReplaced(ChildOf(m, id), name, data);
    ReloadWith(m, id, child');
  }

  lemma ReloadWith(m: map<string, Tree>, id: string, child: map<string, Tree>)
    requires AllMaps(m)
    ensures var loaded := Reload(m[id := Dir(child)]);
      && loaded.Keys == m.Keys + {id}
      && loaded[id] == Dir(Reload(child))
      && forall k | k in m && k != id :: loaded[k] == ReloadValue(m[k])
  {
    var loaded := Reload(m[id := Dir(child)]);
    forall k
      ensures k in loaded <==> k == id || k in m
      ensures k in loaded ==> loaded[k] == ReloadValue(m[id := Dir(child)][k])
    {
      ReloadKey(m[id := Dir(child)], k);
    }
  }

  // ---------------------------------------------------------------- cloud data

  /** CloudInstance.Store: the lock of the host, then the host's cloud path with its slash. */
  method StoreCloudData(kv: KV, host: string, data: map<string, Tree>) returns (ok: bool)
    requires kv.Valid()
    modifies kv
    ensures kv.Valid() && kv.held == old(kv.held)
    ensures kv.refused == old(kv.refused) + if ok then 0 else 1
    ensures IsStoreTrace(old(kv.trace), kv.trace, HostPath(host), CloudPath(host), data, ok)
    ensures Guarded(old(kv.trace), kv.trace, HostPath(host))
    ensures ok && ValidComponent(host) && SlashValid(Dir(data)) ==> Holds(kv.store, CloudPath(host), Expansion(data))
    ensures ValidComponent(host) && KeysValid(Dir(data)) ==>
      forall key | !(CloudPath(host) <= key) && key != HostPath(host) :: SameAt(old(kv.store), kv.store, key)
  {
    var path := CloudPath(host);
    ghost var before := kv.store;
    ok := ReplaceTree(kv, HostPath(host), path, data);
    if ValidComponent(host) {
      CloudBase(host);
      if ok && SlashValid(Dir(data)) {
        ghost var locked :| SameBut(before, locked, HostPath(host)) && Rewritten(locked, kv.store, path, data);
        RewrittenHolds(locked, kv.store, path, data);
      }
    }
  }

  /** Load after Store: the cloud data, with its keys that have slashes split. */
  lemma LoadAfterStoreCloudData(s: Entries, host: string, data: map<string, Tree>, pairs: seq<Pair>)
    requires ValidComponent(host) && SlashValid(Dir(data)) && Fits(Dir(data))
    requires Holds(s, CloudPath(host), Expansion(data)) && IsAnswer(pairs, s, CloudPath(host))
    ensures Load(pairs, CloudPath(host)) == Loaded(Reload(Expansion(data)))
  {
    CloudBase(host);
    ExpandIsValid(Dir(data));
    ExpandFits(Dir(data));
    LoadOfHolding(s, CloudPath(host), Expansion(data), pairs);
  }
}
