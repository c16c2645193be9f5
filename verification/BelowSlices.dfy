/** Leaves at or below the path of a slice. ListMap takes what is below a slice for its elements, so such
    a leaf is never found where it was put. */
module BelowSlices {
  import opened Strings
  import opened Decimal
  import opened GoPath
  import opened Trees
  import opened Decoder
  import opened Listings
  import opened Writes
  import opened Consul
  import opened RoundTrip
  import opened Nests
  import opened Slashes
  import opened Walks
  import opened Overlaps

  /** Leaf p is loaded as a slice: it is the only slice at its path or a beginning of it, and no empty
      map is at its path. */
  ghost predicate SliceStands(ls: set<Leaf>, p: Leaf) {
    && p in ls && p.t.List?
    && forall l | l in ls && l != p && l.path <= p.path :: !l.t.List? && (l.path == p.path ==> !l.t.Dir?)
  }

  lemma ElementKeyIsLonger(base: string, i: nat, t: Tree, w: Pair)
    requires CleanBase(base) && KeysValid(t) && w in PutPairs(JoinPath(base, Index(i)), t)
    ensures |w.key| > |base|
  {
    IndexIsComponent(i);
    ComponentIsKey(Index(i));
    JoinPathAppends(base, Index(i));
    CleanBaseBelow(base, Index(i));
    IndexEndsInText(base, i);
    PutKey(base + Index(i), t, w);
  }

  lemma IndexEndsInText(base: string, i: nat)
    ensures EndsInText(base + Index(i))
  {
    assert IsDigit(Index(i)[|Index(i)| - 1]);
  }

  /** Only the marker of a slice is at its path with a slash. */
  lemma OnlyMark(prefix: string, items: seq<Tree>, w: Pair)
    requires CleanBase(WithSlash(prefix)) && KeysValid(List(items)) && w in PutPairs(prefix, List(items))
    ensures w.key == WithSlash(prefix) ==> w.e == SLICE_MARK
  {
    ListPuts(prefix, items, w);
    if w != Pair(WithSlash(prefix), SLICE_MARK) {
      var i :| 0 <= i < |items| && w in PutPairs(JoinPath(WithSlash(prefix), Index(i)), items[i]);
      ElementKeyIsLonger(WithSlash(prefix), i, items[i], w);
    }
  }

  /** Only the slice itself has an entry at the path of its marker. */
  lemma EntryAtMarker(ls: set<Leaf>, p: Leaf, l: Leaf, k: Path, e: Entry)
    requires SliceStands(ls, p) && l in ls && GoodLeaf(l) && k == p.path + [""] && EntryOf(k, e, l)
    ensures l == p
  {
    match l.t {
      case Scalar(_) => NoMarker(l, p.path);
      case Dir(_) => assert k[..|k| - 1] == l.path && k[..|k| - 1] == p.path;
      case List(_) =>
        PrefixOfShorter(l.path, k, p.path);
        assert k[..|k| - 1] == p.path;
    }
  }

  lemma MarkerKey(w: Pair, base: string, key: string)
    requires w.key == base + key + "/"
    ensures HasPath(w, base, Split(key + "/" + ""))
  {
    assert w.key == base + (key + "/" + "");
    PathHere(w, base, key + "/" + "");
  }

  lemma MarkerPath(base: string, w: Pair, p: Leaf)
    requires CleanBase(base) && GoodLeaf(p) && w.key == base + Join(p.path) + "/"
    ensures HasPath(w, base, p.path + [""])
  {
    LeafPrefix(base, p);
    SplitOfConcat(Join(p.path), "");
    MarkerKey(w, base, Join(p.path));
  }

  /** The entry at the marker's path is the marker. */
  lemma MarkerEntry(base: string, ls: set<Leaf>, p: Leaf, w: Pair)
    requires CleanBase(base) && (forall l | l in ls :: GoodLeaf(l)) && SliceStands(ls, p)
    requires OfLeaves(w, base, ls) && w.key == base + Join(p.path) + "/"
    ensures w.e == SLICE_MARK
  {
    var l :| l in ls && OfLeaf(w, base, l);
    var k := EntryPath(base, l, w);
    MarkerPath(base, w, p);
    EntryAtMarker(ls, p, l, k, w.e);
    LeafPrefix(base, p);
    OnlyMark(base + Join(p.path), p.t.items, w);
  }

  lemma MarkerIsOfLeaf(base: string, ls: set<Leaf>, p: Leaf)
    requires CleanBase(base) && GoodLeaf(p) && p in ls && p.t.List?
    ensures OfLeaves(Pair(base + Join(p.path) + "/", SLICE_MARK), base, ls)
  {
    LeafPrefix(base, p);
    assert OfLeaf(Pair(base + Join(p.path) + "/", SLICE_MARK), base, p);
  }

  lemma MarkerIsListed(pairs: seq<Pair>, prefix: string, ls: set<Leaf>, p: Leaf) returns (i: nat)
    requires GoodListing(pairs, prefix, ls) && SliceStands(ls, p)
    ensures i < |pairs| && HasPath(pairs[i], WithSlash(prefix), p.path + [""]) && pairs[i].e == SLICE_MARK
  {
    var base := WithSlash(prefix);
    var w := Pair(base + Join(p.path) + "/", SLICE_MARK);
    MarkerIsOfLeaf(base, ls, p);
    assert Listed(pairs, w.key);
    i :| 0 <= i < |pairs| && pairs[i].key == w.key;
    MarkerPath(base, pairs[i], p);
    MarkerEntry(base, ls, p, pairs[i]);
  }

  lemma PrefixOfLonger(k: Path, p: Path, q: Path)
    requires p <= q
    ensures k <= p ==> k <= q
  {
  }

  predicate IsPathed(w: Pair, base: string) {
    w.key == base || (base <= w.key && HasPath(w, base, Rel(w.key, base)))
  }

  /** Sorted pairs with paths below the prefix. */
  ghost predicate Pathed(pairs: seq<Pair>, prefix: string) {
    GoodPrefix(prefix) && Sorted(pairs) && forall i | 0 <= i < |pairs| :: IsPathed(pairs[i], WithSlash(prefix))
  }

  lemma GoodListingIsPathed(pairs: seq<Pair>, prefix: string, ls: set<Leaf>)
    requires GoodListing(pairs, prefix, ls)
    ensures Pathed(pairs, prefix)
  {
    forall i: nat | i < |pairs| ensures IsPathed(pairs[i], WithSlash(prefix)) {
      if pairs[i].key != WithSlash(prefix) {
        var l, k := ListedEntry(pairs, WithSlash(prefix), ls, i);
      }
    }
  }

  /** Pair i is the marker of a slice at p. */
  predicate IsMarker(pairs: seq<Pair>, prefix: string, p: Path, i: nat) {
    && i < |pairs| && p != []
    && HasPath(pairs[i], WithSlash(prefix), p + [""]) && pairs[i].e == SLICE_MARK
  }

  lemma SliceIsMetAt(pairs: seq<Pair>, prefix: string, p: Path, i: nat, m: map<string, Tree>)
    requires GoodPrefix(prefix) && IsMarker(pairs, prefix, p, i) && InsertPair(m, pairs[i], prefix).Loaded?
    ensures MeetsSlice(InsertPair(m, pairs[i], prefix).m, p)
  {
    InsertEntry(m, pairs[i], prefix, p + [""]);
    SliceIsMet(m, p, pairs[i].e);
  }

  /** The entry of w writes over nothing on the way down p. */
  predicate KeepsSlice(w: Pair, base: string, p: Path) {
    w.key == base || (base <= w.key && HasPath(w, base, Rel(w.key, base)) && !(Rel(w.key, base) <= p))
  }

  ghost predicate AllKeep(pairs: seq<Pair>, base: string, p: Path, n: nat) {
    forall j | n <= j < |pairs| :: KeepsSlice(pairs[j], base, p)
  }

  lemma LaterKeep(pairs: seq<Pair>, prefix: string, p: Path, i: nat)
    requires Pathed(pairs, prefix) && IsMarker(pairs, prefix, p, i)
    ensures AllKeep(pairs, WithSlash(prefix), p, i + 1)
  {
    forall j: nat | i < j < |pairs| ensures KeepsSlice(pairs[j], WithSlash(prefix), p) {
      LaterKeeps(pairs, prefix, p, i, j);
    }
  }

  lemma LaterKeeps(pairs: seq<Pair>, prefix: string, p: Path, i: nat, j: nat)
    requires Pathed(pairs, prefix) && IsMarker(pairs, prefix, p, i) && i < j < |pairs|
    ensures KeepsSlice(pairs[j], WithSlash(prefix), p)
  {
    var base := WithSlash(prefix);
    assert IsPathed(pairs[j], base);
    if pairs[j].key != base {
      LaterPath(pairs, base, i, j, p + [""], Rel(pairs[j].key, base));
      PrefixOfLonger(Rel(pairs[j].key, base), p, p + [""]);
    }
  }

  lemma SliceStaysWithPair(m: map<string, Tree>, w: Pair, prefix: string, p: Path)
    requires GoodPrefix(prefix) && KeepsSlice(w, WithSlash(prefix), p)
    requires MeetsSlice(m, p) && InsertPair(m, w, prefix).Loaded?
    ensures MeetsSlice(InsertPair(m, w, prefix).m, p)
  {
    if w.key == WithSlash(prefix) {
      BasePair(m, w, prefix);
    } else {
      InsertEntry(m, w, prefix, Rel(w.key, WithSlash(prefix)));
      SliceStays(m, Rel(w.key, WithSlash(prefix)), w.e, p);
    }
  }

  predicate Met(o: Outcome, p: Path) {
    o.Loaded? ==> MeetsSlice(o.m, p)
  }

  lemma SliceStaysMet(m: map<string, Tree>, w: Pair, prefix: string, p: Path)
    requires GoodPrefix(prefix) && KeepsSlice(w, WithSlash(prefix), p) && MeetsSlice(m, p)
    ensures Met(InsertPair(m, w, prefix), p)
  {
    if InsertPair(m, w, prefix).Loaded? {
      SliceStaysWithPair(m, w, prefix, p);
    }
  }

  lemma {:induction false} StaysMet(m: map<string, Tree>, pairs: seq<Pair>, prefix: string, p: Path, n: nat)
    requires GoodPrefix(prefix) && n <= |pairs| && AllKeep(pairs, WithSlash(prefix), p, n) && MeetsSlice(m, p)
    ensures Met(Resume(Loaded(m), pairs[n..], prefix), p)
    decreases |pairs| - n
  {
    if n < |pairs| {
      var o := InsertPair(m, pairs[n], prefix);
      ResumeAt(m, pairs, prefix, n);
      SliceStaysMet(m, pairs[n], prefix, p);
      if o.Loaded? {
        StaysMet(o.m, pairs, prefix, p, n + 1);
      }
    }
  }

  lemma {:induction false} NothingBehindSlice(m: map<string, Tree>, p: Path, q: Path)
    requires MeetsSlice(m, p) && p <= q
    ensures Lookup(Dir(m), q).Failed? || (p == q && Lookup(Dir(m), q).value.List?)
    decreases |p|
  {
    if m[p[0]].Dir? {
      PrefixOfTails(p, q);
      NothingBehindSlice(m[p[0]].m, p[1..], q[1..]);
      assert p[1..] == q[1..] ==> p == q by {
        assert p == [p[0]] + p[1..] && q == [q[0]] + q[1..];
      }
    }
  }

  lemma LoadMeetsSlice(pairs: seq<Pair>, prefix: string, ls: set<Leaf>, p: Leaf)
    requires GoodListing(pairs, prefix, ls) && SliceStands(ls, p) && Load(pairs, prefix).Loaded?
    ensures MeetsSlice(Load(pairs, prefix).m, p.path)
  {
    var i := MarkerIsListed(pairs, prefix, ls, p);
    GoodListingIsPathed(pairs, prefix, ls);
    assert GoodLeaf(p);
    SliceMetInTheEnd(pairs, prefix, p.path, i);
  }

  lemma SliceMetInTheEnd(pairs: seq<Pair>, prefix: string, p: Path, i: nat)
    requires Pathed(pairs, prefix) && IsMarker(pairs, prefix, p, i) && Load(pairs, prefix).Loaded?
    ensures MeetsSlice(Load(pairs, prefix).m, p)
  {
    ResumeLoad(pairs, prefix, i + 1);
    LoadStep(pairs, i, prefix);
    var o := Load(pairs[..i + 1], prefix);
    if o.Loaded? {
      SliceIsMetAt(pairs, prefix, p, i, Load(pairs[..i], prefix).m);
      LaterKeep(pairs, prefix, p, i);
      StaysMet(o.m, pairs, prefix, p, i + 1);
    }
  }

  /** Whatever is at or below the path of a slice is not loaded where it was put: ListMap panics, or
      nothing is found at the other leaf's path, or, if that is the slice's own path, a slice. */
  lemma LeafAtSliceIsLost(prefix: string, m: map<string, Tree>, before: Entries, after: Entries, query: string,
      pairs: seq<Pair>, p: Leaf, q: Leaf)
    requires GoodPrefix(prefix) && KeysValid(Dir(m)) && m != map[]
    requires Written(before, after, PutPairs(prefix, Dir(m)), true)
    requires query <= WithSlash(prefix) && forall key | key in before && query <= key :: key == WithSlash(prefix)
    requires IsAnswer(pairs, after, query)
    requires SliceStands(Leaves(Dir(m)), p) && q in Leaves(Dir(m)) && q != p && p.path <= q.path
    ensures Load(pairs, prefix).Loaded? ==>
      var found := Lookup(Dir(Load(pairs, prefix).m), q.path);
      found.Failed? || (q.path == p.path && q.t.Scalar? && found.value.List?)
  {
    LeavesAreGood(m);
    WrittenListsLeaves(prefix, m, before, after, query, pairs);
    if Load(pairs, prefix).Loaded? {
      LoadMeetsSlice(pairs, prefix, Leaves(Dir(m)), p);
      NothingBehindSlice(Load(pairs, prefix).m, p.path, q.path);
    }
  }

  // ---------------------------------------------------------------- an input

  /** The walk below the only key of a map. */
  lemma InsertBelow(key: string, sub: map<string, Tree>, k: Path, e: Entry)
    requires |k| > 1
    ensures Insert(map[key := Dir(sub)], [key] + k, e) ==
      match Insert(sub, k, e) { case Loaded(after) => Loaded(map[key := Dir(after)]) case Panic => Panic }
  {
    assert ([key] + k)[1..] == k;
    InsertInside(map[key := Dir(sub)], [key] + k, e);
    assert forall after :: map[key := Dir(sub)][key := Dir(after)] == map[key := Dir(after)];
  }

  lemma InsertSliceOverScalar(key: string, v: Value)
    ensures Insert(map[key := Scalar(v)], [key, ""], SLICE_MARK) == Loaded(map[key := List([])])
  {
  }

  lemma InsertElementAtName(key: string, name: string, e: Entry)
    requires AtoiIgnoringError(name) == 0 && e.flag != SLICE_FLAG
    ensures Insert(map[key := List([])], [key, name], e) == Loaded(map[key := List([Dir(map[])])])
  {
    assert [key, name][1..] == [name];
    assert [] + [Dir(map[])] == [Dir(map[])];
  }

  /** A slice at the path of a scalar takes its place, and then what is below it is taken for an
      element: a number at x/a/b is loaded as an empty map, and nothing panics. */
  lemma SliceTakesThePlace(n: Int64, n': Int64)
    ensures !Stands({Leaf(["x", "a"], Scalar(Int(n))), Leaf(["x", "a"], List([]))}, Leaf(["x", "a"], Scalar(Int(n))))
    ensures Insert(map["x" := Dir(map["a" := Scalar(Int(n))])], ["x"] + ["a", ""], SLICE_MARK)
      == Loaded(map["x" := Dir(map["a" := List([])])])
    ensures Insert(map["x" := Dir(map["a" := List([])])], ["x"] + ["a", "b"], TypedEntry(Int(n')))
      == Loaded(map["x" := Dir(map["a" := List([Dir(map[])])])])
  {
    assert Leaf(["x", "a"], List([])).path <= ["x", "a"];
    InsertSliceOverScalar("a", Int(n));
    InsertBelow("x", map["a" := Scalar(Int(n))], ["a", ""], SLICE_MARK);
    InsertElementAtName("a", "b", TypedEntry(Int(n')));
    InsertBelow("x", map["a" := List([])], ["a", "b"], TypedEntry(Int(n')));
  }
}
