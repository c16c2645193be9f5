/** Listings of leaves whose paths may begin one another: which of them ListMap panics on, and what
    it loads from all others. */
module Overlaps {
  import opened Strings
  import opened GoPath
  import opened Trees
  import opened KeyTrees
  import opened Decoder
  import opened Listings
  import opened Writes
  import opened Consul
  import opened RoundTrip
  import opened Nests
  import opened Slashes
  import opened Walks

  // ---------------------------------------------------------------- the entries of a leaf

  ghost predicate OfLeaf(w: Pair, base: string, l: Leaf) {
    w in PutPairs(base + Join(l.path), l.t)
  }

  /** The path and entry that a leaf puts; those of a slice are somewhere below its path. */
  predicate EntryOf(k: Path, e: Entry, l: Leaf) {
    match l.t
    case Scalar(v) => k == l.path && e == TypedEntry(v)
    case Dir(_) => k == l.path + [""] && e == EMPTY_DIR
    case List(_) => l.path <= k && |l.path| < |k|
  }

  /** The pair has the path k below the base, and ListMap cuts its key to it. */
  predicate HasPath(w: Pair, base: string, k: Path) {
    && base <= w.key && w.key != base && k == Rel(w.key, base) && w.key == base + Join(k)
    && w.key[|w.key| - 1] != ' '
  }

  lemma LeafPrefix(base: string, l: Leaf)
    requires CleanBase(base) && GoodLeaf(l)
    ensures CleanBase(base + Join(l.path) + "/") && WithSlash(base + Join(l.path)) == base + Join(l.path) + "/"
    ensures l.t.Scalar? ==> EndsInText(base + Join(l.path))
    ensures Split(Join(l.path)) == l.path && Join(l.path) != ""
  {
    PathIsKey(l.path);
    ValidKeyNonEmpty(Join(l.path));
    CleanBaseBelow(base, Join(l.path));
    if l.t.Scalar? {
      JoinEndsAsLast(l.path);
    }
  }

  lemma PathHere(w: Pair, base: string, key: string)
    requires w.key == base + key && key != "" && w.key[|w.key| - 1] != ' '
    ensures HasPath(w, base, Split(key))
  {
    JoinOfSplit(key);
    assert w.key[|base|..] == key;
  }

  lemma PathBelow(w: Pair, base: string, key: string) returns (tail: string)
    requires base + key + "/" <= w.key && w.key[|w.key| - 1] != ' '
    ensures HasPath(w, base, Split(key) + Split(tail)) && w.key == base + key + "/" + tail
  {
    tail := w.key[|base + key + "/"|..];
    assert w.key == base + (key + "/" + tail);
    PathHere(w, base, key + "/" + tail);
    SplitOfConcat(key, tail);
  }

  lemma EntryPath(base: string, l: Leaf, w: Pair) returns (k: Path)
    requires CleanBase(base) && GoodLeaf(l) && OfLeaf(w, base, l)
    ensures HasPath(w, base, k) && EntryOf(k, w.e, l)
  {
    var key := Join(l.path);
    LeafPrefix(base, l);
    PutKey(base + key, l.t, w);
    if l.t.Scalar? {
      PathHere(w, base, key);
      k := l.path;
    } else {
      var tail := PathBelow(w, base, key);
      k := l.path + Split(tail);
      if l.t.Dir? {
        assert tail == "";
      }
    }
  }

  lemma InsertEntry(m: map<string, Tree>, w: Pair, prefix: string, k: Path)
    requires PlainBase(WithSlash(prefix)) && HasPath(w, WithSlash(prefix), k)
    ensures k != [] && InsertPair(m, w, prefix) == Insert(m, k, w.e)
  {
    BelowOfPlain(w.key, prefix);
  }

  // ---------------------------------------------------------------- listings

  ghost predicate OfLeaves(w: Pair, base: string, ls: set<Leaf>) {
    exists l :: l in ls && OfLeaf(w, base, l)
  }

  /** The sorted pairs are entries of the leaves, one for every key of theirs. At the key base
      itself there may be anything. */
  ghost predicate ListsLeaves(pairs: seq<Pair>, base: string, ls: set<Leaf>) {
    && Sorted(pairs)
    && (forall i | 0 <= i < |pairs| :: pairs[i].key == base || OfLeaves(pairs[i], base, ls))
    && forall w | OfLeaves(w, base, ls) :: Listed(pairs, w.key)
  }

  /** What a complete PutMap has written is listed as the leaves of the tree. */
  lemma WrittenListsLeaves(prefix: string, m: map<string, Tree>, before: Entries, after: Entries, query: string,
      pairs: seq<Pair>)
    requires GoodPrefix(prefix) && KeysValid(Dir(m)) && m != map[]
    requires Written(before, after, PutPairs(prefix, Dir(m)), true)
    requires query <= WithSlash(prefix) && forall key | key in before && query <= key :: key == WithSlash(prefix)
    requires IsAnswer(pairs, after, query)
    ensures ListsLeaves(pairs, WithSlash(prefix), Leaves(Dir(m)))
  {
    var base, ls, all := WithSlash(prefix), Leaves(Dir(m)), PutPairs(prefix, Dir(m));
    forall w ensures w in all <==> OfLeaves(w, base, ls) {
      LeavesPut(prefix, m, w);
      assert PutAtLeaf(w, base, ls) <==> OfLeaves(w, base, ls);
    }
    forall i | 0 <= i < |pairs| ensures pairs[i].key == base || OfLeaves(pairs[i], base, ls) {
      if Puts(all, pairs[i].key) {
        assert Pair(pairs[i].key, pairs[i].e) == pairs[i];
      } else {
        assert SameAt(before, after, pairs[i].key);
      }
    }
    LeavesAreGood(m);
    forall w | OfLeaves(w, base, ls) ensures Listed(pairs, w.key) {
      assert Pair(w.key, w.e) == w;
      assert Puts(all, w.key);
      var l :| l in ls && OfLeaf(w, base, l);
      var k := EntryPath(base, l, w);
      assert query <= w.key;
    }
  }

  // ---------------------------------------------------------------- a scalar above a leaf

  /** A scalar that is no empty string. */
  predicate Loud(t: Tree) {
    t.Scalar? && t != EMPTY_STRING
  }

  /** Leaf p is loaded as a scalar: no slice is at its path or at a beginning of it, and there is no
      empty string at the same path. */
  ghost predicate Stands(ls: set<Leaf>, p: Leaf) {
    && p in ls && Loud(p.t)
    && forall l | l in ls && l.path <= p.path :: !l.t.List? && (l.path == p.path ==> l.t != EMPTY_STRING)
  }

  /** Leaf q puts an entry below p that is not just passed over. */
  ghost predicate Falls(ls: set<Leaf>, p: Leaf, q: Leaf) {
    && q in ls && p.path <= q.path && p.path != q.path
    && (|q.path| == |p.path| + 1 ==> forall l | l in ls && l.path == q.path :: l.t != EMPTY_STRING)
  }

  /** A listing of the leaves of a tree below a good prefix. */
  ghost predicate GoodListing(pairs: seq<Pair>, prefix: string, ls: set<Leaf>) {
    && GoodPrefix(prefix) && (forall l | l in ls :: GoodLeaf(l)) && ListsLeaves(pairs, WithSlash(prefix), ls)
  }

  lemma ListedEntry(pairs: seq<Pair>, base: string, ls: set<Leaf>, i: nat) returns (l: Leaf, k: Path)
    requires CleanBase(base) && (forall l | l in ls :: GoodLeaf(l))
    requires ListsLeaves(pairs, base, ls) && i < |pairs| && pairs[i].key != base
    ensures l in ls && HasPath(pairs[i], base, k) && EntryOf(k, pairs[i].e, l)
  {
    l :| l in ls && OfLeaf(pairs[i], base, l);
    k := EntryPath(base, l, pairs[i]);
  }

  lemma PrefixOfShorter(a: Path, k: Path, p: Path)
    requires a <= k && |a| < |k|
    ensures k[..|k| - 1] <= p ==> a <= p
  {
    assert a <= k[..|k| - 1];
  }

  lemma EntryPutsNoSlice(k: Path, e: Entry, l: Leaf, p: Path)
    requires k != [] && EntryOf(k, e, l) && (l.t.List? ==> !(l.path <= p))
    ensures NoSliceOn(k, e, p)
  {
    if l.t.List? {
      PrefixOfShorter(l.path, k, p);
    }
  }

  /** The key of a marker is no leaf's path. */
  lemma NoMarker(l: Leaf, p: Path)
    requires GoodLeaf(l)
    ensures l.path != p + [""]
  {
    assert (p + [""])[|p|] == "";
    assert "" in p + [""];
  }

  lemma JoinOfLonger(k: Path, k': Path) returns (tail: string)
    requires k != [] && k <= k' && k != k'
    ensures Join(k') == Join(k) + "/" + tail
  {
    var r := k'[|k|..];
    assert k' == k + r;
    JoinOfAppend(k, r);
    tail := Join(r);
  }

  lemma LessThanLonger(a: string, tail: string)
    ensures Less(a, a + ("/" + tail))
  {
    LessAfterPrefix(a, "", "/" + tail);
    assert a + "" == a;
  }

  lemma PathOrder(base: string, w: Pair, w': Pair, k: Path, k': Path)
    requires HasPath(w, base, k) && HasPath(w', base, k') && k != [] && k <= k' && k != k'
    ensures Less(w.key, w'.key)
  {
    var tail := JoinOfLonger(k, k');
    assert w'.key == w.key + ("/" + tail);
    LessThanLonger(w.key, tail);
  }

  lemma SortedIndex(pairs: seq<Pair>, i: nat, j: nat)
    requires Sorted(pairs) && i < |pairs| && j < |pairs|
    ensures Less(pairs[i].key, pairs[j].key) ==> i < j
    ensures pairs[i].key == pairs[j].key ==> i == j
  {
    LessIrreflexive(pairs[i].key);
    if Less(pairs[j].key, pairs[i].key) { LessAsymmetric(pairs[j].key, pairs[i].key); }
  }

  lemma BasePair(m: map<string, Tree>, w: Pair, prefix: string)
    requires PlainBase(WithSlash(prefix)) && w.key == WithSlash(prefix)
    ensures InsertPair(m, w, prefix) == Loaded(m)
  {
    BelowOfPlain(w.key, prefix);
  }

  /** The tree has a scalar at the path, or nothing has been put there yet. */
  predicate StandsIn(m: map<string, Tree>, p: Path, there: bool) {
    MeetsNoSlice(m, p) && (there ==> EndsAtScalar(m, p))
  }

  predicate StandsAt(o: Outcome, p: Path, there: bool) {
    o.Loaded? ==> StandsIn(o.m, p, there)
  }

  /** The first entry at the path of a leaf that stands is a scalar that is no empty string. */
  lemma EntryAtScalar(ls: set<Leaf>, p: Leaf, k: Path, e: Entry, l: Leaf)
    requires (forall l | l in ls :: GoodLeaf(l)) && Stands(ls, p) && l in ls && k == p.path && EntryOf(k, e, l)
    ensures Loud(Decode(e))
  {
    assert GoodLeaf(p) && GoodLeaf(l);
    match l.t {
      case Scalar(v) => ScalarRoundTrip(v);
      case Dir(_) => NoMarker(p, l.path);
      case List(_) =>
    }
  }

  lemma StandingStep(ls: set<Leaf>, p: Leaf, m: map<string, Tree>, there: bool, k: Path, e: Entry, l: Leaf)
    requires (forall l | l in ls :: GoodLeaf(l)) && Stands(ls, p) && l in ls && k != [] && EntryOf(k, e, l)
    requires StandsIn(m, p.path, there) && (there ==> !(k <= p.path)) && Insert(m, k, e).Loaded?
    ensures StandsIn(Insert(m, k, e).m, p.path, there || k == p.path)
  {
    EntryPutsNoSlice(k, e, l, p.path);
    StaysWithoutSlice(m, k, e, p.path);
    if there {
      ScalarStays(m, k, e, p.path);
    } else if k == p.path {
      EntryAtScalar(ls, p, k, e, l);
      ScalarIsLoaded(m, k, e);
    }
  }

  /** What the next pair of a listing does at the path of a leaf that stands. */
  lemma StandsWithPair(pairs: seq<Pair>, prefix: string, ls: set<Leaf>, p: Leaf, i: nat, n: nat, m: map<string, Tree>)
    requires GoodListing(pairs, prefix, ls) && Stands(ls, p)
    requires i < |pairs| && HasPath(pairs[i], WithSlash(prefix), p.path) && n < |pairs|
    requires StandsIn(m, p.path, i < n) && InsertPair(m, pairs[n], prefix).Loaded?
    ensures StandsIn(InsertPair(m, pairs[n], prefix).m, p.path, i < n + 1)
  {
    var base, w := WithSlash(prefix), pairs[n];
    if w.key == base {
      BasePair(m, w, prefix);
    } else {
      var l, k := ListedEntry(pairs, base, ls, n);
      InsertEntry(m, w, prefix, k);
      LaterPath(pairs, base, i, n, p.path, k);
      StandingStep(ls, p, m, i < n, k, w.e, l);
    }
  }

  /** What every beginning of a listing loads at the path of a leaf that stands. */
  lemma {:induction false} StandsAfter(pairs: seq<Pair>, prefix: string, ls: set<Leaf>, p: Leaf, i: nat, n: nat)
    requires GoodListing(pairs, prefix, ls) && Stands(ls, p)
    requires i < |pairs| && HasPath(pairs[i], WithSlash(prefix), p.path) && n <= |pairs|
    ensures StandsAt(Load(pairs[..n], prefix), p.path, i < n)
  {
    if n == 0 {
      assert pairs[..0] == [];
    } else {
      StandsAfter(pairs, prefix, ls, p, i, n - 1);
      LoadStep(pairs, n - 1, prefix);
      var before := Load(pairs[..n - 1], prefix);
      if before.Loaded? {
        StandsStep(pairs, prefix, ls, p, i, n - 1, before.m);
      }
    }
  }

  lemma StandsStep(pairs: seq<Pair>, prefix: string, ls: set<Leaf>, p: Leaf, i: nat, n: nat, m: map<string, Tree>)
    requires GoodListing(pairs, prefix, ls) && Stands(ls, p)
    requires i < |pairs| && HasPath(pairs[i], WithSlash(prefix), p.path) && n < |pairs|
    requires StandsIn(m, p.path, i < n)
    ensures StandsAt(InsertPair(m, pairs[n], prefix), p.path, i < n + 1)
  {
    if InsertPair(m, pairs[n], prefix).Loaded? {
      StandsWithPair(pairs, prefix, ls, p, i, n, m);
    }
  }

  /** In a sorted listing no entry after another one is at a beginning of its path. */
  lemma LaterPath(pairs: seq<Pair>, base: string, i: nat, j: nat, p: Path, k: Path)
    requires Sorted(pairs) && i < |pairs| && j < |pairs| && HasPath(pairs[i], base, p) && HasPath(pairs[j], base, k) &&
      k != []
    ensures i < j ==> !(k <= p)
    ensures i == j ==> k == p
  {
    SortedIndex(pairs, j, i);
    if k <= p && k != p {
      PathOrder(base, pairs[j], pairs[i], k, p);
    }
  }

  lemma SomeEntry(base: string, l: Leaf) returns (w: Pair, k: Path)
    requires CleanBase(base) && GoodLeaf(l)
    ensures OfLeaf(w, base, l) && HasPath(w, base, k) && EntryOf(k, w.e, l)
  {
    var prefix := base + Join(l.path);
    match l.t {
      case Scalar(v) => w := Pair(prefix, TypedEntry(v));
      case Dir(_) => w := Pair(WithSlash(prefix), EMPTY_DIR);
      case List(_) => w := Pair(WithSlash(prefix), SLICE_MARK);
    }
    k := EntryPath(base, l, w);
  }

  /** Every leaf has an entry in the listing. */
  lemma LeafIsListed(pairs: seq<Pair>, base: string, ls: set<Leaf>, l: Leaf) returns (i: nat, k: Path, l': Leaf)
    requires CleanBase(base) && (forall l | l in ls :: GoodLeaf(l)) && ListsLeaves(pairs, base, ls) && l in ls
    ensures i < |pairs| && HasPath(pairs[i], base, k) && l.path <= k && (l.t.Scalar? ==> k == l.path)
    ensures !l.t.Scalar? ==> l.path != k
    ensures l' in ls && EntryOf(k, pairs[i].e, l')
  {
    var w, k0 := SomeEntry(base, l);
    assert OfLeaves(w, base, ls);
    assert Listed(pairs, w.key);
    i :| 0 <= i < |pairs| && pairs[i].key == w.key;
    l', k := ListedEntry(pairs, base, ls, i);
    assert k == k0;
  }

  lemma FallsThrough(ls: set<Leaf>, p: Leaf, q: Leaf, k: Path, e: Entry, l: Leaf)
    requires (forall l | l in ls :: GoodLeaf(l)) && Stands(ls, p) && Falls(ls, p, q) && l in ls && EntryOf(k, e, l)
    requires q.path <= k && (k == q.path || |q.path| < |k|)
    requires k != [] && |k| == |p.path| + 1
    ensures Decode(e) != EMPTY_STRING
  {
    assert q.path == k;
    assert GoodLeaf(q) && GoodLeaf(l);
    match l.t {
      case Scalar(v) => ScalarRoundTrip(v);
      case Dir(_) => NoMarker(q, l.path);
      case List(_) => PrefixesOfSame(l.path, p.path, k);
    }
  }

  lemma FallingEntryPanics(ls: set<Leaf>, p: Leaf, q: Leaf, m: map<string, Tree>, k: Path, e: Entry, l: Leaf)
    requires (forall l | l in ls :: GoodLeaf(l)) && Stands(ls, p) && Falls(ls, p, q) && l in ls && EntryOf(k, e, l)
    requires q.path <= k && (k == q.path || |q.path| < |k|) && StandsIn(m, p.path, true)
    ensures k != [] && Insert(m, k, e) == Panic
  {
    assert p.path <= k && |p.path| < |k|;
    EntryPutsNoSlice(k, e, l, p.path);
    BelowScalar(m, k, e, p.path);
    if |k| == |p.path| + 1 {
      FallsThrough(ls, p, q, k, e, l);
    }
  }

  lemma StandsBefore(pairs: seq<Pair>, base: string, p: Leaf, q: Leaf, i: nat, j: nat, k: Path)
    requires Sorted(pairs) && i < |pairs| && j < |pairs| && HasPath(pairs[i], base, p.path) &&
      HasPath(pairs[j], base, k)
    requires p.path != [] && p.path <= q.path <= k && p.path != q.path
    ensures i < j
  {
    assert p.path <= k && |p.path| < |k|;
    PathOrder(base, pairs[i], pairs[j], p.path, k);
    SortedIndex(pairs, i, j);
  }

  /** ListMap panics on every listing in which a leaf falls on a scalar that stands. */
  lemma ScalarAbovePanics(pairs: seq<Pair>, prefix: string, ls: set<Leaf>, p: Leaf, q: Leaf)
    requires GoodListing(pairs, prefix, ls) && Stands(ls, p) && Falls(ls, p, q)
    ensures Load(pairs, prefix) == Panic
  {
    var base := WithSlash(prefix);
    var i, kp, lp := LeafIsListed(pairs, base, ls, p);
    var j, k, l := LeafIsListed(pairs, base, ls, q);
    StandsBefore(pairs, base, p, q, i, j, k);
    StandsAfter(pairs, prefix, ls, p, i, j);
    LoadStep(pairs, j, prefix);
    if Load(pairs[..j], prefix).Loaded? {
      FallingEntryPanics(ls, p, q, Load(pairs[..j], prefix).m, k, pairs[j].e, l);
      InsertEntry(Load(pairs[..j], prefix).m, pairs[j], prefix, k);
      PanicStays(pairs, prefix, j + 1);
    } else {
      PanicStays(pairs, prefix, j);
    }
  }

  /** A tree with a scalar above another leaf: ListMap panics on whatever listing of it, unless the
      other leaf is an empty string directly below the scalar. */
  lemma LoadOfScalarAboveLeaf(prefix: string, m: map<string, Tree>, before: Entries, after: Entries, query: string,
      pairs: seq<Pair>, p: Leaf, q: Leaf)
    requires GoodPrefix(prefix) && KeysValid(Dir(m))
    requires Written(before, after, PutPairs(prefix, Dir(m)), true)
    requires query <= WithSlash(prefix) && forall key | key in before && query <= key :: key == WithSlash(prefix)
    requires IsAnswer(pairs, after, query)
    requires Stands(Leaves(Dir(m)), p) && Falls(Leaves(Dir(m)), p, q)
    ensures Load(pairs, prefix) == Panic
  {
    LeavesAreGood(m);
    WrittenListsLeaves(prefix, m, before, after, query, pairs);
    ScalarAbovePanics(pairs, prefix, Leaves(Dir(m)), p, q);
  }
}
