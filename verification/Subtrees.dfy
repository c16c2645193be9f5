/** Subtrees of the store: what it means that the keys below a path encode a tree, and what deleting
    and rewriting the path of a child does to it. */
module Subtrees {
  import opened Strings
  import opened GoPath
  import opened Trees
  import opened KeyTrees
  import opened Decoder
  import opened Listings
  import opened Writes
  import opened Consul
  import opened RoundTrip
  import opened Slashes

  // ---------------------------------------------------------------- a subtree of the store

  /** Below root the store holds exactly the encoding of m. The key root itself is left to locks. */
  ghost predicate Holds(s: Entries, root: string, m: map<string, Tree>) {
    && (forall key | key in s && root <= key && key != root :: InTree(Pair(key, s[key]), root, Layout(Dir(m))))
    && (forall w | InTree(w, root, Layout(Dir(m))) && w.key != root :: w.key in s && s[w.key] == w.e)
  }

  /** Whoever lists a subtree that holds m loads the reloaded m; an entry at root itself, such as
      that of the lock, is never part of the data. */
  lemma LoadOfHolding(s: Entries, root: string, m: map<string, Tree>, pairs: seq<Pair>)
    requires GoodPrefix(root) && HasSuffixSlash(root) && Valid(Dir(m)) && Holds(s, root, m) && IsAnswer(pairs, s, root)
    ensures Load(pairs, root) == if Fits(Dir(m)) then Loaded(Reload(m)) else Panic
  {
    var kt := Layout(Dir(m));
    LayoutWellFormed(Dir(m));
    forall i | 0 <= i < |pairs| && pairs[i].key != root ensures InTree(pairs[i], root, kt) {
      assert Pair(pairs[i].key, pairs[i].e) == pairs[i];
    }
    forall q | Has(kt, q) && q != [""] ensures Listed(pairs, root + Join(q)) {
      var w := Pair(root + Join(q), KeyTrees.At(kt, q).value);
      EntryIsInTree(root, kt, q);
      NotTheMarker(kt, q);
      assert w.key in s;
    }
    LoadOfLayout(m, pairs, root);
  }

  lemma NotTheMarker(kt: KeyTree, q: Path)
    requires !kt.File? && WellFormed(kt, false) && Has(kt, q) && q != [""]
    ensures Join(q) != ""
  {
    PathsArePlain(kt, false, q);
    SplitOfJoin(q);
  }

  // ---------------------------------------------------------------- one child of it

  /** Map m with everything whose name begins with id removed, and t under id. */
  function Replaced(m: map<string, Tree>, id: string, t: Tree): map<string, Tree> {
    (map k | k in m && !(id <= k) :: m[k])[id := t]
  }

  /** The store after DeleteTree and a complete PutMap at the path of a child. */
  ghost predicate Rewritten(before: Entries, after: Entries, path: string, t: map<string, Tree>) {
    Written(WithoutPrefix(before, path), after, PutPairs(path, Dir(t)), true)
  }

  lemma PrefixOfName(id: string, k: string, rest: string)
    requires '/' !in id
    ensures id <= k + "/" + rest <==> id <= k
  {
    var s := k + "/" + rest;
    assert s[|k|] == '/' && s[..|k|] == k;
    if |k| < |id| <= |s| {
      assert s[..|id|][|k|] == '/';
    }
    if |id| <= |k| {
      assert s[..|id|] == k[..|id|];
    }
  }

  lemma PrefixTransitive(a: string, b: string, c: string)
    ensures a <= b && b <= c ==> a <= c
  {
  }

  lemma PrefixAfter(root: string, a: string, b: string)
    ensures root + a <= root + b <==> a <= b
  {
    assert (root + b)[|root|..] == b && (root + a)[|root|..] == a;
    if a <= b {
      assert (root + b)[..|root + a|] == root + b[..|a|];
    }
    if root + a <= root + b {
      assert a == (root + b)[..|root + a|][|root|..];
    }
  }

  /** w is an entry of the child k. */
  ghost predicate OfChild(w: Pair, root: string, m: map<string, Tree>, k: string) {
    k in m && InChild(w, root + k, Layout(m[k]))
  }

  /** A pair below a map child: its key begins with the path of id exactly if the child's name
      begins with id. */
  lemma ChildKeyPrefix(root: string, id: string, k: string, w: Pair, m: map<string, Tree>)
    requires '/' !in id && OfChild(w, root, m, k) && m[k].Dir?
    ensures root + id <= w.key <==> id <= k
    ensures root <= w.key && w.key != root
  {
    var rest := w.key[|root + k + "/"|..];
    assert w.key == root + (k + "/" + rest);
    PrefixOfName(id, k, rest);
    PrefixAfter(root, id, k + "/" + rest);
  }

  predicate AllMaps(m: map<string, Tree>) {
    forall k | k in m :: m[k].Dir?
  }

  lemma InTreeByChild(w: Pair, root: string, m: map<string, Tree>)
    requires Valid(Dir(m)) && m != map[]
    ensures InTree(w, root, Layout(Dir(m))) <==> exists k :: OfChild(w, root, m, k)
  {
    LayoutWellFormed(Dir(m));
    InFolder(w, root, Layout(Dir(m)));
    assert Layout(Dir(m)) == Folder(map k | k in m :: Layout(m[k]));
    if k :| k in m && InChild(w, root + k, Layout(Dir(m)).m[k]) {
      assert OfChild(w, root, m, k);
    }
  }

  lemma NothingInEmpty(w: Pair, root: string)
    requires InTree(w, root, Layout(Dir(map[])))
    ensures w.key == root
  {
    OnlyTheMarker(Rel(w.key, root));
    JoinOfSplit(w.key[|root|..]);
    assert w.key == root + w.key[|root|..];
  }

  /** The pairs put for a map are those of the child they are put for. */
  lemma PutIsOfChild(root: string, m: map<string, Tree>, id: string, t: map<string, Tree>, w: Pair)
    requires CleanBase(WithSlash(root + id)) && WithSlash(root + id) == root + id + "/" && Valid(Dir(t))
    requires id in m && m[id] == Dir(t)
    ensures w in PutPairs(root + id, Dir(t)) <==> OfChild(w, root, m, id)
  {
    PutPairsOfDir(root + id, t, w);
  }

  lemma NotPutOutside(path: string, t: map<string, Tree>, key: string)
    requires CleanBase(WithSlash(path)) && KeysValid(Dir(t)) && !(path <= key)
    ensures !Puts(PutPairs(path, Dir(t)), key)
  {
    if Puts(PutPairs(path, Dir(t)), key) {
      var e :| Pair(key, e) in PutPairs(path, Dir(t));
      PutKey(path, Dir(t), Pair(key, e));
      PrefixTransitive(path, WithSlash(path), key);
    }
  }

  /** What both directions of RewriteChild start from. */
  ghost predicate Rewriting(s: Entries, s': Entries, root: string, m: map<string, Tree>, id: string,
      t: map<string, Tree>)
  {
    && CleanBase(root) && ValidComponent(id) && CleanBase(root + id + "/") && WithSlash(root + id) == root + id + "/"
    && Valid(Dir(m)) && AllMaps(m) && Valid(Dir(t)) && Valid(Dir(Replaced(m, id, Dir(t))))
    && Holds(s, root, m) && Rewritten(s, s', root + id, t)
  }

  lemma ReplacedHas(m: map<string, Tree>, id: string, t: Tree, k: string)
    ensures k in Replaced(m, id, t) <==> k == id || (k in m && !(id <= k))
    ensures k in Replaced(m, id, t) && k != id ==> Replaced(m, id, t)[k] == m[k]
    ensures Replaced(m, id, t)[id] == t
  {
  }

  lemma OldKeyStays(s: Entries, s': Entries, root: string, m: map<string, Tree>, id: string, t: map<string, Tree>,
      w: Pair)
    requires Rewriting(s, s', root, m, id, t)
    requires w.key in s' && s'[w.key] == w.e && root <= w.key && w.key != root &&
      !Puts(PutPairs(root + id, Dir(t)), w.key)
    ensures exists k :: OfChild(w, root, Replaced(m, id, Dir(t)), k)
  {
    assert SameAt(WithoutPrefix(s, root + id), s', w.key);
    assert InTree(Pair(w.key, s[w.key]), root, Layout(Dir(m)));
    assert Pair(w.key, s[w.key]) == w;
    if m == map[] {
      NothingInEmpty(w, root);
    }
    InTreeByChild(w, root, m);
    var k :| OfChild(w, root, m, k);
    ChildKeyPrefix(root, id, k, w, m);
    ReplacedHas(m, id, Dir(t), k);
    assert OfChild(w, root, Replaced(m, id, Dir(t)), k);
  }

  lemma RewrittenKey(s: Entries, s': Entries, root: string, m: map<string, Tree>, id: string, t: map<string, Tree>,
      w: Pair)
    requires Rewriting(s, s', root, m, id, t)
    requires w.key in s' && s'[w.key] == w.e && root <= w.key && w.key != root
    ensures InTree(w, root, Layout(Dir(Replaced(m, id, Dir(t)))))
  {
    var m' := Replaced(m, id, Dir(t));
    InTreeByChild(w, root, m');
    if Puts(PutPairs(root + id, Dir(t)), w.key) {
      assert Pair(w.key, s'[w.key]) == w;
      PutIsOfChild(root, m', id, t, w);
    } else {
      OldKeyStays(s, s', root, m, id, t, w);
    }
  }

  lemma RewrittenPair(s: Entries, s': Entries, root: string, m: map<string, Tree>, id: string, t: map<string, Tree>,
      w: Pair)
    requires Rewriting(s, s', root, m, id, t)
    requires InTree(w, root, Layout(Dir(Replaced(m, id, Dir(t)))))
    ensures w.key in s' && s'[w.key] == w.e
  {
    var m' := Replaced(m, id, Dir(t));
    InTreeByChild(w, root, m');
    var k :| OfChild(w, root, m', k);
    ReplacedHas(m, id, Dir(t), k);
    if k == id {
      PutIsOfChild(root, m', id, t, w);
      assert Pair(w.key, w.e) == w;
      assert Puts(PutPairs(root + id, Dir(t)), w.key);
      PutIsOfChild(root, m', id, t, Pair(w.key, s'[w.key]));
    } else {
      OtherChildStays(s, s', root, m, id, t, w, k);
    }
  }

  lemma OtherChildStays(s: Entries, s': Entries, root: string, m: map<string, Tree>, id: string,
      t: map<string, Tree>, w: Pair, k: string)
    requires Rewriting(s, s', root, m, id, t) && OfChild(w, root, m, k) && !(id <= k)
    ensures w.key in s' && s'[w.key] == w.e
  {
    ChildKeyPrefix(root, id, k, w, m);
    InTreeByChild(w, root, m);
    assert w.key in s && s[w.key] == w.e;
    ValidIsSlashValid(Dir(t));
    NotPutOutside(root + id, t, w.key);
    assert SameAt(WithoutPrefix(s, root + id), s', w.key);
  }

  lemma ReplacedIsValid(m: map<string, Tree>, id: string, t: Tree)
    requires Valid(Dir(m)) && ValidComponent(id) && t.Dir? && Valid(t)
    ensures Valid(Dir(Replaced(m, id, t)))
  {
    forall k | k in Replaced(m, id, t) ensures k == id || (k in m && Replaced(m, id, t)[k] == m[k]) {
      ReplacedHas(m, id, t, k);
    }
  }

  lemma RewriteValidChild(s: Entries, s': Entries, root: string, m: map<string, Tree>, id: string,
      t: map<string, Tree>)
    requires CleanBase(root) && ValidComponent(id)
    requires Valid(Dir(m)) && AllMaps(m) && Valid(Dir(t))
    requires Holds(s, root, m) && Rewritten(s, s', root + id, t)
    ensures Holds(s', root, Replaced(m, id, Dir(t))) && Valid(Dir(Replaced(m, id, Dir(t))))
  {
    ComponentIsKey(id);
    CleanBaseBelow(root, id);
    ReplacedIsValid(m, id, Dir(t));
    RewritingHolds(s, s', root, m, id, t);
  }

  lemma RewritingHolds(s: Entries, s': Entries, root: string, m: map<string, Tree>, id: string, t: map<string, Tree>)
    requires Rewriting(s, s', root, m, id, t)
    ensures Holds(s', root, Replaced(m, id, Dir(t)))
  {
    var m' := Replaced(m, id, Dir(t));
    forall key | key in s' && root <= key && key != root ensures InTree(Pair(key, s'[key]), root, Layout(Dir(m'))) {
      RewrittenKey(s, s', root, m, id, t, Pair(key, s'[key]));
    }
    forall w | InTree(w, root, Layout(Dir(m'))) && w.key != root ensures w.key in s' && s'[w.key] == w.e {
      RewrittenPair(s, s', root, m, id, t, w);
    }
  }

  /** Storing t for id: afterwards the subtree holds t under id, with keys that have slashes split,
      everything whose name does not begin with id is as it was, and everything else is gone. */
  lemma RewriteChild(s: Entries, s': Entries, root: string, m: map<string, Tree>, id: string, t: map<string, Tree>)
    requires CleanBase(root) && ValidComponent(id)
    requires Valid(Dir(m)) && AllMaps(m) && SlashValid(Dir(t))
    requires Holds(s, root, m) && Rewritten(s, s', root + id, t)
    ensures Holds(s', root, Replaced(m, id, Dir(Expansion(t)))) && Valid(Dir(Replaced(m, id, Dir(Expansion(t)))))
  {
    ComponentIsKey(id);
    CleanBaseBelow(root, id);
    WrittenIsExpanded(root + id, t, WithoutPrefix(s, root + id), s');
    RewriteValidChild(s, s', root, m, id, Expansion(t));
  }

  /** Outside the path nothing changes. */
  lemma RewriteKeepsOthers(s: Entries, s': Entries, path: string, t: map<string, Tree>, key: string)
    requires CleanBase(WithSlash(path)) && KeysValid(Dir(t)) && Rewritten(s, s', path, t) && !(path <= key)
    ensures SameAt(s, s', key)
  {
    NotPutOutside(path, t, key);
    assert SameAt(WithoutPrefix(s, path), s', key);
  }

  /** The whole path holds t afterwards, if it is a clean base itself. */
  lemma RewrittenHolds(s: Entries, s': Entries, path: string, t: map<string, Tree>)
    requires CleanBase(path) && WithSlash(path) == path && SlashValid(Dir(t)) && Rewritten(s, s', path, t)
    ensures Holds(s', path, Expansion(t)) && Valid(Dir(Expansion(t)))
  {
    WrittenIsExpanded(path, t, WithoutPrefix(s, path), s');
    RewrittenHoldsValid(s, s', path, Expansion(t));
  }

  lemma RewrittenHoldsValid(s: Entries, s': Entries, path: string, data: map<string, Tree>)
    requires CleanBase(path) && WithSlash(path) == path && Valid(Dir(data)) && Rewritten(s, s', path, data)
    ensures Holds(s', path, data)
  {
    forall key | key in s' && path <= key && key != path ensures InTree(Pair(key, s'[key]), path, Layout(Dir(data))) {
      PutPairsOfDir(path, data, Pair(key, s'[key]));
      assert !Puts(PutPairs(path, Dir(data)), key) ==> SameAt(WithoutPrefix(s, path), s', key);
    }
    forall w | InTree(w, path, Layout(Dir(data))) ensures w.key in s' && s'[w.key] == w.e {
      PutPairsOfDir(path, data, w);
      assert Pair(w.key, w.e) == w;
      assert Puts(PutPairs(path, Dir(data)), w.key);
      PutPairsOfDir(path, data, Pair(w.key, s'[w.key]));
    }
  }

  // ---------------------------------------------------------------- a grandchild

  /** The subtree of one child, which may not be there yet. */
  function ChildOf(m: map<string, Tree>, id: string): map<string, Tree> {
    if id in m && m[id].Dir? then m[id].m else map[]
  }

  lemma SameChild(root: string, k: string, id: string, key: string)
    requires '/' !in k && '/' !in id && root + k + "/" <= key && root + id + "/" <= key
    ensures k == id
  {
    PrefixTransitive(root, root + k + "/", key);
    RelOfChild(root, k, key);
    RelOfChild(root, id, key);
    assert Rel(key, root)[0] == k;
  }

  lemma HoldsBelow(s: Entries, root: string, m: map<string, Tree>, id: string)
    requires Valid(Dir(m)) && AllMaps(m) && Holds(s, root, m) && ValidComponent(id)
    ensures Holds(s, root + id + "/", ChildOf(m, id))
  {
    var sub := root + id + "/";
    forall key | key in s && sub <= key && key != sub
      ensures InTree(Pair(key, s[key]), sub, Layout(Dir(ChildOf(m, id))))
    {
      var w := Pair(key, s[key]);
      assert root <= sub;
      PrefixTransitive(root, sub, key);
      if m == map[] { NothingInEmpty(w, root); }
      InTreeByChild(w, root, m);
      var k :| OfChild(w, root, m, k);
      SameChild(root, k, id, key);
    }
    forall w | InTree(w, sub, Layout(Dir(ChildOf(m, id)))) && w.key != sub ensures w.key in s && s[w.key] == w.e {
      if id in m {
        assert OfChild(w, root, m, id);
        InTreeByChild(w, root, m);
      } else {
        NothingInEmpty(w, sub);
      }
    }
  }

  /** The children other than id are encoded by keys that do not begin with id's path. */
  lemma OtherChildKey(root: string, m: map<string, Tree>, id: string, k: string, w: Pair)
    requires Valid(Dir(m)) && AllMaps(m) && ValidComponent(id) && OfChild(w, root, m, k) && k != id
    ensures !(root + id + "/" <= w.key) && root <= w.key && w.key != root
  {
    if root + id + "/" <= w.key {
      SameChild(root, k, id, w.key);
    }
  }

  /** What both directions of HoldsAbove start from. */
  ghost predicate ChildChanged(s: Entries, s': Entries, root: string, m: map<string, Tree>, id: string,
      t: map<string, Tree>)
  {
    && Valid(Dir(m)) && AllMaps(m) && Holds(s, root, m) && ValidComponent(id)
    && Valid(Dir(t)) && t != map[] && Holds(s', root + id + "/", t) && root + id + "/" !in s'
    && (forall key | !(root + id + "/" <= key) :: SameAt(s, s', key))
    && Valid(Dir(m[id := Dir(t)]))
  }

  lemma ChangedKey(s: Entries, s': Entries, root: string, m: map<string, Tree>, id: string, t: map<string, Tree>,
      w: Pair)
    requires ChildChanged(s, s', root, m, id, t)
    requires w.key in s' && s'[w.key] == w.e && root <= w.key && w.key != root
    ensures InTree(w, root, Layout(Dir(m[id := Dir(t)])))
  {
    var m' := m[id := Dir(t)];
    InTreeByChild(w, root, m');
    assert Pair(w.key, s'[w.key]) == w;
    if root + id + "/" <= w.key {
      assert OfChild(w, root, m', id);
    } else {
      assert SameAt(s, s', w.key);
      if m == map[] { NothingInEmpty(w, root); }
      InTreeByChild(w, root, m);
      var k :| OfChild(w, root, m, k);
      assert k != id;
      assert OfChild(w, root, m', k);
    }
  }

  lemma ChangedPair(s: Entries, s': Entries, root: string, m: map<string, Tree>, id: string, t: map<string, Tree>,
      w: Pair)
    requires ChildChanged(s, s', root, m, id, t) && InTree(w, root, Layout(Dir(m[id := Dir(t)])))
    ensures w.key in s' && s'[w.key] == w.e
  {
    var m' := m[id := Dir(t)];
    InTreeByChild(w, root, m');
    var k :| OfChild(w, root, m', k);
    if k == id {
      NoMarkerInNonEmpty(w, root + id + "/", t);
    } else {
      OtherChildKey(root, m', id, k, w);
      assert OfChild(w, root, m, k);
      OtherPairStays(s, s', root, m, id, t, w, k);
    }
  }

  lemma OtherPairStays(s: Entries, s': Entries, root: string, m: map<string, Tree>, id: string, t: map<string, Tree>,
      w: Pair, k: string)
    requires ChildChanged(s, s', root, m, id, t) && OfChild(w, root, m, k) && !(root + id + "/" <= w.key) &&
      w.key != root
    ensures w.key in s' && s'[w.key] == w.e
  {
    InTreeByChild(w, root, m);
    assert SameAt(s, s', w.key);
  }

  /** Changing the subtree of one child changes that child only. */
  lemma HoldsAbove(s: Entries, s': Entries, root: string, m: map<string, Tree>, id: string, t: map<string, Tree>)
    requires ChildChanged(s, s', root, m, id, t)
    ensures Holds(s', root, m[id := Dir(t)])
  {
    forall key | key in s' && root <= key && key != root
      ensures InTree(Pair(key, s'[key]), root, Layout(Dir(m[id := Dir(t)])))
    {
      ChangedKey(s, s', root, m, id, t, Pair(key, s'[key]));
    }
    forall w | InTree(w, root, Layout(Dir(m[id := Dir(t)]))) && w.key != root
      ensures w.key in s' && s'[w.key] == w.e
    {
      ChangedPair(s, s', root, m, id, t, w);
    }
  }

  lemma NoMarkerInNonEmpty(w: Pair, root: string, t: map<string, Tree>)
    requires Valid(Dir(t)) && t != map[] && InTree(w, root, Layout(Dir(t)))
    ensures w.key != root
  {
    var rest := w.key[|root|..];
    assert Rel(w.key, root)[0] in t;
    assert rest != "";
  }

  // ---------------------------------------------------------------- the paths in the store

  const TRENTO := "trento" + "/" + "v0" + "/"
  const HOSTS := TRENTO + "hosts" + "/"
  function HostPath(host: string): string { HOSTS + host + "/" }
  function SapSystemsPath(host: string): string { HostPath(host) + "sapsystems" + "/" }
  function CloudPath(host: string): string { HostPath(host) + "cloud" + "/" }
  const CLUSTERS_PATH := TRENTO + "clusters" + "/"
  const DISCOVERED := "discovered_data"
  function ClusterPath(id: string): string { CLUSTERS_PATH + id + "/" }
  function DiscoveredPath(id: string): string { ClusterPath(id) + DISCOVERED }

  lemma FirstBase(c: string)
    requires ValidComponent(c)
    ensures CleanBase(c + "/")
  {
    ComponentIsKey(c);
    ResolveOfValid([c], false, []);
    assert (c + "/")[..|c + "/"| - 1] == c;
  }

  lemma TrentoBase()
    ensures CleanBase(TRENTO) && TRENTO[0] == 't'
  {
    FirstBase("trento");
    BaseBelow("trento" + "/", "v0");
  }

  lemma BaseBelow(base: string, c: string)
    requires CleanBase(base) && ValidComponent(c) && base[0] != ' '
    ensures CleanBase(base + c + "/") && GoodPrefix(base + c + "/") && WithSlash(base + c + "/") == base + c + "/"
    ensures WithSlash(base + c) == base + c + "/" && JoinPath(base, c) == base + c && GoodPrefix(base + c)
    ensures (base + c + "/")[0] == base[0]
  {
    ComponentIsKey(c);
    CleanBaseBelow(base, c);
    JoinPathAppends(base, c);
  }

  lemma HostsBase()
    ensures CleanBase(HOSTS) && HOSTS[0] == 't'
  {
    TrentoBase();
    BaseBelow(TRENTO, "hosts");
  }

  lemma HostBase(host: string)
    requires ValidComponent(host)
    ensures CleanBase(HostPath(host)) && HostPath(host)[0] == 't'
  {
    HostsBase();
    BaseBelow(HOSTS, host);
  }

  lemma SapSystemsBase(host: string)
    requires ValidComponent(host)
    ensures CleanBase(SapSystemsPath(host)) && GoodPrefix(SapSystemsPath(host)) && SapSystemsPath(host)[0] == 't'
  {
    HostBase(host);
    BaseBelow(HostPath(host), "sapsystems");
  }

  lemma ClusterBase(id: string)
    requires ValidComponent(id)
    ensures CleanBase(CLUSTERS_PATH) && GoodPrefix(CLUSTERS_PATH) && HasSuffixSlash(CLUSTERS_PATH) &&
      ValidComponent(DISCOVERED)
    ensures CleanBase(ClusterPath(id)) && GoodPrefix(ClusterPath(id)) && GoodPrefix(DiscoveredPath(id)) &&
      ClusterPath(id)[0] == 't'
  {
    TrentoBase();
    BaseBelow(TRENTO, "clusters");
    BaseBelow(CLUSTERS_PATH, id);
    BaseBelow(ClusterPath(id), DISCOVERED);
  }

  /** The paths as they are in Consul. */
  lemma PathsAsWritten(host: string, id: string)
    ensures SapSystemsPath(host) == "trento/v0/hosts/" + host + "/sapsystems/"
    ensures CloudPath(host) == "trento/v0/hosts/" + host + "/cloud/"
    ensures HostPath(host) == "trento/v0/hosts/" + host + "/"
    ensures CLUSTERS_PATH == "trento/v0/clusters/"
    ensures DiscoveredPath(id) == "trento/v0/clusters/" + id + "/discovered_data"
    ensures !(DISCOVERED <= "user_settings")
  {
    BasesAsWritten();
    SlashBefore(HOSTS + host, "sapsystems/", "/sapsystems/");
    SlashBefore(HOSTS + host, "cloud/", "/cloud/");
    SlashBefore(CLUSTERS_PATH + id, "discovered_data", "/discovered_data");
    JoinedName(HostPath(host), "sapsystems", "sapsystems/");
    JoinedName(HostPath(host), "cloud", "cloud/");
  }

  lemma BasesAsWritten()
    ensures HOSTS == "trento/v0/hosts/" && CLUSTERS_PATH == "trento/v0/clusters/"
    ensures !(DISCOVERED <= "user_settings")
  {
    assert DISCOVERED[0] != "user_settings"[0];
  }

  lemma SlashBefore(base: string, name: string, slashed: string)
    requires slashed == "/" + name
    ensures base + "/" + name == base + slashed
  {
  }

  lemma JoinedName(base: string, name: string, joined: string)
    requires joined == name + "/"
    ensures base + name + "/" == base + joined
  {
  }

  /** Below one base, paths of different names begin no other, whatever follows the names. */
  lemma BesideEachOther(root: string, k: string, id: string, rest: string, rest': string)
    requires '/' !in k && '/' !in id && k != id
    ensures !(root + k + "/" + rest <= root + id + "/" + rest')
  {
    var p, q := root + k + "/" + rest, root + id + "/" + rest';
    if p <= q {
      assert root + k + "/" <= p && root + id + "/" <= q;
      PrefixTransitive(root + k + "/", p, q);
      SameChild(root, k, id, q);
    }
  }

  /** What is stored for systems, cloud data and clusters, of one host or of two, is at paths none of
      which begins another. */
  lemma PathsAreApart(host: string, host': string)
    requires ValidComponent(host) && ValidComponent(host')
    ensures !(SapSystemsPath(host) <= CloudPath(host')) && !(CloudPath(host) <= SapSystemsPath(host'))
    ensures host != host' ==>
      !(SapSystemsPath(host) <= SapSystemsPath(host')) && !(CloudPath(host) <= CloudPath(host'))
    ensures !(SapSystemsPath(host) <= CLUSTERS_PATH) && !(CLUSTERS_PATH <= SapSystemsPath(host))
    ensures !(CloudPath(host) <= CLUSTERS_PATH) && !(CLUSTERS_PATH <= CloudPath(host))
  {
    if host == host' {
      SubPathsApart(HostPath(host), "sapsystems", "cloud");
      SubPathsApart(HostPath(host), "cloud", "sapsystems");
    } else {
      HostPathsApart(host, host', "sapsystems", "cloud");
      HostPathsApart(host, host', "cloud", "sapsystems");
      HostPathsApart(host, host', "sapsystems", "sapsystems");
      HostPathsApart(host, host', "cloud", "cloud");
    }
    ClustersApart(host, "sapsystems");
    ClustersApart(host, "cloud");
  }

  lemma SubPathsApart(base: string, a: string, b: string)
    requires '/' !in a && '/' !in b && a != b
    ensures !(base + a + "/" <= base + b + "/")
  {
    BesideEachOther(base, a, b, "", "");
    assert base + a + "/" + "" == base + a + "/" && base + b + "/" + "" == base + b + "/";
  }

  lemma HostPathsApart(host: string, host': string, a: string, b: string)
    requires ValidComponent(host) && ValidComponent(host') && host != host'
    ensures !(HostPath(host) + a + "/" <= HostPath(host') + b + "/")
  {
    BesideEachOther(HOSTS, host, host', a + "/", b + "/");
    assert HostPath(host) + a + "/" == HOSTS + host + "/" + (a + "/");
    assert HostPath(host') + b + "/" == HOSTS + host' + "/" + (b + "/");
  }

  lemma ClustersApart(host: string, a: string)
    ensures !(HostPath(host) + a + "/" <= CLUSTERS_PATH) && !(CLUSTERS_PATH <= HostPath(host) + a + "/")
  {
    var rest := host + "/" + a + "/";
    BesideEachOther(TRENTO, "hosts", "clusters", rest, "");
    BesideEachOther(TRENTO, "clusters", "hosts", "", rest);
    assert HostPath(host) + a + "/" == TRENTO + "hosts" + "/" + rest;
    assert CLUSTERS_PATH == TRENTO + "clusters" + "/" + "";
  }

  lemma CloudBase(host: string)
    requires ValidComponent(host)
    ensures CleanBase(CloudPath(host)) && GoodPrefix(CloudPath(host)) && WithSlash(CloudPath(host)) == CloudPath(host)
  {
    HostBase(host);
    BaseBelow(HostPath(host), "cloud");
  }
}
