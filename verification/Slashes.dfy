/** Map keys that contain slashes: path.Join turns them into nested keys, and a tree is loaded with
    each such key split into nested maps. */
module Slashes {
  import opened Strings
  import opened Decimal
  import opened GoPath
  import opened Trees
  import opened Decoder
  import opened Writes
  import opened Consul
  import opened RoundTrip
  import opened Nests

  // ---------------------------------------------------------------- leaves and their paths

  /** A value of a tree that is no map with keys, at the path that all keys above it make. */
  datatype Leaf = Leaf(path: Path, t: Tree)

  /** The scalars, slices and empty maps of a tree, at their full paths below it. */
  ghost function Leaves(t: Tree): set<Leaf> {
    match t
    case Dir(m) =>
      if m == map[] then {Leaf([], t)}
      else set k, l | k in m && l in Leaves(m[k]) :: Leaf(Split(k) + l.path, l.t)
    case _ => {Leaf([], t)}
  }

  lemma {:induction false} LeafIsSmaller(t: Tree, l: Leaf)
    requires l in Leaves(t)
    ensures l.t == t || l.t < t
    ensures t.Dir? && t.m != map[] ==> l.t < t
  {
    if t.Dir? && t.m != map[] {
      var k, below :| k in t.m && below in Leaves(t.m[k]) && l == Leaf(Split(k) + below.path, below.t);
      LeafIsSmaller(t.m[k], below);
      assert t.m[k] < t;
    }
  }

  /** No path of a leaf is the beginning of another's. */
  ghost predicate Apart(ls: set<Leaf>) {
    forall l, l' | l in ls && l' in ls && l != l' :: !(l.path <= l'.path)
  }

  ghost function TreeAt(ls: set<Leaf>, p: Path): Tree
    requires exists l :: l in ls && l.path == p
  {
    var l :| l in ls && l.path == p;
    l.t
  }

  ghost function ByPath(ls: set<Leaf>): (pm: map<Path, Tree>)
    ensures forall p | p in pm :: Leaf(p, pm[p]) in ls
    ensures forall l | l in ls :: l.path in pm
  {
    map p | p in (set l | l in ls :: l.path) :: TreeAt(ls, p)
  }

  /** A bound on the length of the paths. */
  ghost function Longest(ls: set<Leaf>): (n: nat)
    ensures forall l | l in ls :: |l.path| <= n
  {
    var lengths := set l | l in ls :: |l.path|;
    assert forall l | l in ls :: |l.path| in lengths;
    Max(lengths)
  }

  /** The tree that is loaded: every key with slashes is split into nested maps, and maps that meet
      at the same path are one map. */
  ghost function Expand(t: Tree): (r: Tree)
    ensures t.Dir? <==> r.Dir?
    ensures t.Scalar? ==> r == t
    decreases t
  {
    match t
    case Scalar(_) => t
    case List(items) => List(seq(|items|, i requires 0 <= i < |items| => Expand(items[i])))
    case Dir(m) =>
      if m == map[] then t
      else
        var pm := ByPath(Leaves(t));
        Dir(Nest(map p | p in pm :: LeafIsSmaller(t, Leaf(p, pm[p])); Expand(pm[p]), Longest(Leaves(t))))
  }

  ghost function Expanded(pm: map<Path, Tree>): map<Path, Tree> {
    map p | p in pm :: Expand(pm[p])
  }

  /** The nested map of leaves none of which is below another. */
  ghost function Nested(ls: set<Leaf>): map<string, Tree> {
    Nest(Expanded(ByPath(ls)), Longest(ls))
  }

  lemma ExpandIsNested(m: map<string, Tree>)
    requires m != map[]
    ensures Expand(Dir(m)) == Dir(Nested(Leaves(Dir(m))))
  {
    var pm := ByPath(Leaves(Dir(m)));
    assert Expanded(pm) == map p | p in pm :: Expand(pm[p]);
  }

  predicate EndsInText(key: string) {
    key != "" && key[|key| - 1] != ' '
  }

  /** One or several path components, and at a scalar no blank at the end. */
  predicate KeyIsValid(key: string, t: Tree) {
    ValidKey(key) && (t.Scalar? ==> EndsInText(key))
  }

  /** Trees with such keys. */
  predicate KeysValid(t: Tree) {
    match t
    case Scalar(v) => Storable(v)
    case Dir(m) =>
      forall k | k in m :: KeyIsValid(k, m[k]) && KeysValid(m[k])
    case List(items) => |items| <= MAX_INT64 && forall i | 0 <= i < |items| :: KeysValid(items[i])
  }

  /** Trees with such keys in which no leaf is below another. */
  ghost predicate SlashValid(t: Tree) {
    && KeysValid(t)
    && match t
       case Scalar(_) => true
       case Dir(m) => Apart(Leaves(t)) && forall k | k in m :: SlashValid(m[k])
       case List(items) => forall i | 0 <= i < |items| :: SlashValid(items[i])
  }

  // ---------------------------------------------------------------- the family of the leaves

  lemma {:induction false} SomeLeaf(t: Tree) returns (l: Leaf)
    ensures l in Leaves(t)
  {
    l := Leaf([], t);
    if t.Dir? && t.m != map[] {
      var k :| k in t.m;
      var below := SomeLeaf(t.m[k]);
      l := Leaf(Split(k) + below.path, below.t);
    }
  }

  /** A leaf of a map is a leaf of the value of one of its keys. */
  lemma LeafBelow(m: map<string, Tree>, l: Leaf) returns (k: string, below: Leaf)
    requires m != map[] && l in Leaves(Dir(m))
    ensures k in m && below in Leaves(m[k]) && l == Leaf(Split(k) + below.path, below.t)
  {
    k, below :| k in m && below in Leaves(m[k]) && l == Leaf(Split(k) + below.path, below.t);
  }

  lemma {:induction false} LeafPathIsValid(t: Tree, l: Leaf)
    requires KeysValid(t) && l in Leaves(t)
    ensures forall c | c in l.path :: ValidComponent(c)
    ensures t.Dir? && t.m != map[] ==> l.path != []
    ensures KeysValid(l.t) && (l.t.Dir? ==> l.t.m == map[])
    decreases t
  {
    if t.Dir? && t.m != map[] {
      var k, below := LeafBelow(t.m, l);
      LeafPathIsValid(t.m[k], below);
      assert ValidKey(k);
    }
  }

  lemma {:induction false} LeafIsSlashValid(t: Tree, l: Leaf)
    requires SlashValid(t) && l in Leaves(t)
    ensures SlashValid(l.t)
    decreases t
  {
    if t.Dir? && t.m != map[] {
      var k, below := LeafBelow(t.m, l);
      LeafIsSlashValid(t.m[k], below);
    }
  }

  lemma EndsAsSecond(p: Path, q: Path)
    requires EndsPlain(q)
    ensures EndsPlain(p + q)
  {
    assert (p + q)[|p + q| - 1] == q[|q| - 1];
  }

  lemma {:induction false} LeafEndsPlain(t: Tree, l: Leaf)
    requires KeysValid(t) && l in Leaves(t) && l.t.Scalar? && l.path != []
    ensures EndsPlain(l.path)
    decreases t
  {
    var k, below := LeafBelow(t.m, l);
    if below.path == [] {
      LeafWithoutPath(t.m[k], below);
      KeyEndsAsPath(k);
      assert l.path == Split(k);
    } else {
      LeafEndsPlain(t.m[k], below);
      EndsAsSecond(Split(k), below.path);
    }
  }

  lemma LeafWithoutPath(t: Tree, l: Leaf)
    requires KeysValid(t) && l in Leaves(t) && l.path == []
    ensures l.t == t
  {
    LeafPathIsValid(t, l);
  }

  /** What the leaves of a map with valid keys are: their paths make a key again. */
  predicate GoodLeaf(l: Leaf) {
    && l.path != [] && (forall c | c in l.path :: ValidComponent(c))
    && KeysValid(l.t) && (l.t.Dir? ==> l.t.m == map[]) && (l.t.Scalar? ==> EndsPlain(l.path))
  }

  lemma LeavesAreGood(m: map<string, Tree>)
    requires KeysValid(Dir(m)) && m != map[]
    ensures forall l | l in Leaves(Dir(m)) :: GoodLeaf(l)
  {
    forall l | l in Leaves(Dir(m)) ensures GoodLeaf(l) {
      LeafPathIsValid(Dir(m), l);
      if l.t.Scalar? { LeafEndsPlain(Dir(m), l); }
    }
  }

  lemma LeafIsAtItsPath(ls: set<Leaf>, l: Leaf)
    requires Apart(ls) && l in ls
    ensures ByPath(ls)[l.path] == l.t
  {
    assert Leaf(l.path, ByPath(ls)[l.path]) in ls;
  }

  lemma LeavesArePaths(ls: set<Leaf>)
    requires Apart(ls) && forall l | l in ls :: GoodLeaf(l)
    ensures Paths(Expanded(ByPath(ls)), Longest(ls))
  {
    var pm, n := ByPath(ls), Longest(ls);
    forall p | p in pm ensures ValidPath(p, n) {
      assert GoodLeaf(Leaf(p, pm[p]));
    }
    forall p, q | p in pm && q in pm ensures !Clash(p, q) {
      assert Leaf(p, pm[p]) in ls && Leaf(q, pm[q]) in ls;
    }
  }

  // ---------------------------------------------------------------- the same puts

  /** Some leaf puts w at its path. */
  ghost predicate PutAtLeaf(w: Pair, base: string, ls: set<Leaf>) {
    exists l :: l in ls && w in PutPairs(base + Join(l.path), l.t)
  }

  /** The same for the leaves below a key. */
  ghost predicate PutAtLeafBelow(w: Pair, base: string, k: string, ls: set<Leaf>) {
    exists l :: l in ls && w in PutPairs(base + Join(Split(k) + l.path), l.t)
  }

  lemma PutAtLeafOfDir(w: Pair, base: string, m: map<string, Tree>)
    requires m != map[]
    ensures PutAtLeaf(w, base, Leaves(Dir(m))) <==> exists k :: k in m && PutAtLeafBelow(w, base, k, Leaves(m[k]))
  {
    if PutAtLeaf(w, base, Leaves(Dir(m))) {
      var l :| l in Leaves(Dir(m)) && w in PutPairs(base + Join(l.path), l.t);
      var k, below :| k in m && below in Leaves(m[k]) && l == Leaf(Split(k) + below.path, below.t);
      assert PutAtLeafBelow(w, base, k, Leaves(m[k]));
    }
    if k :| k in m && PutAtLeafBelow(w, base, k, Leaves(m[k])) {
      var below :| below in Leaves(m[k]) && w in PutPairs(base + Join(Split(k) + below.path), below.t);
      assert Leaf(Split(k) + below.path, below.t) in Leaves(Dir(m));
    }
  }

  lemma KeyThenPath(base: string, k: string, p: Path)
    requires p != []
    ensures base + k + "/" + Join(p) == base + Join(Split(k) + p)
  {
    JoinOfSplit(k);
    JoinOfAppend(Split(k), p);
  }

  /** Below a key the same leaves put the same, with the key in front of their paths. */
  lemma PutAtLeafBelowKey(w: Pair, base: string, k: string, t: Tree)
    requires KeysValid(t) && t.Dir? && t.m != map[]
    ensures PutAtLeaf(w, base + k + "/", Leaves(t)) <==> PutAtLeafBelow(w, base, k, Leaves(t))
  {
    forall l | l in Leaves(t) ensures base + k + "/" + Join(l.path) == base + Join(Split(k) + l.path) {
      LeafPathIsValid(t, l);
      KeyThenPath(base, k, l.path);
    }
  }

  /** A map puts what its leaves put at their full paths. */
  lemma {:induction false} DirPutsLeaves(base: string, m: map<string, Tree>, w: Pair)
    requires CleanBase(base) && KeysValid(Dir(m)) && m != map[]
    ensures PutsAtKey(w, base, m) <==> PutAtLeaf(w, base, Leaves(Dir(m)))
    decreases Dir(m), 0
  {
    forall k | k in m
      ensures JoinPath(base, k) == base + k
      ensures w in PutPairs(base + k, m[k]) <==> PutAtLeafBelow(w, base, k, Leaves(m[k]))
    {
      JoinPathAppends(base, k);
      KeyPutsLeaves(base, k, m[k], w);
    }
    PutAtLeafOfDir(w, base, m);
  }

  lemma {:induction false} KeyPutsLeaves(base: string, k: string, t: Tree, w: Pair)
    requires CleanBase(base) && ValidKey(k) && KeysValid(t)
    ensures w in PutPairs(base + k, t) <==> PutAtLeafBelow(w, base, k, Leaves(t))
    decreases t, 1
  {
    CleanBaseBelow(base, k);
    if t.Dir? && t.m != map[] {
      DirPutsLeaves(base + k + "/", t.m, w);
      DirPuts(base + k, t.m, w);
      PutAtLeafBelowKey(w, base, k, t);
    } else {
      LeafPuts(base, k, t, w);
    }
  }

  lemma LeafPuts(base: string, k: string, t: Tree, w: Pair)
    requires Leaves(t) == {Leaf([], t)}
    ensures w in PutPairs(base + k, t) <==> PutAtLeafBelow(w, base, k, Leaves(t))
  {
    JoinOfSplit(k);
    assert Split(k) + [] == Split(k);
    assert Leaf([], t) in Leaves(t);
  }

  /** Where the keys are that a tree puts, and that none of them ends in a blank. */
  lemma {:induction false} PutKey(prefix: string, t: Tree, w: Pair)
    requires KeysValid(t) && CleanBase(WithSlash(prefix)) && w in PutPairs(prefix, t)
    requires t.Scalar? ==> EndsInText(prefix)
    ensures EndsInText(w.key) && if t.Scalar? then w.key == prefix else WithSlash(prefix) <= w.key
    decreases t, 1
  {
    match t
    case Scalar(_) =>
    case Dir(m) => PutKeyOfDir(prefix, m, w);
    case List(items) => PutKeyOfList(prefix, items, w);
  }

  lemma {:induction false} PutKeyOfDir(prefix: string, m: map<string, Tree>, w: Pair)
    requires KeysValid(Dir(m)) && CleanBase(WithSlash(prefix)) && w in PutPairs(prefix, Dir(m))
    ensures EndsInText(w.key) && WithSlash(prefix) <= w.key
    decreases Dir(m), 0
  {
    if m != map[] {
      DirPuts(prefix, m, w);
      var k :| k in m && w in PutPairs(JoinPath(WithSlash(prefix), k), m[k]);
      PutKeyBelow(WithSlash(prefix), k, m[k], w);
    }
  }

  lemma {:induction false} PutKeyOfList(prefix: string, items: seq<Tree>, w: Pair)
    requires KeysValid(List(items)) && CleanBase(WithSlash(prefix)) && w in PutPairs(prefix, List(items))
    ensures EndsInText(w.key) && WithSlash(prefix) <= w.key
    decreases List(items), 0
  {
    ListPuts(prefix, items, w);
    if w != Pair(WithSlash(prefix), SLICE_MARK) {
      var i :| 0 <= i < |items| && w in PutPairs(JoinPath(WithSlash(prefix), Index(i)), items[i]);
      IndexIsComponent(i);
      ComponentIsKey(Index(i));
      assert IsDigit(Index(i)[|Index(i)| - 1]);
      PutKeyBelow(WithSlash(prefix), Index(i), items[i], w);
    }
  }

  lemma {:induction false} PutKeyBelow(base: string, k: string, t: Tree, w: Pair)
    requires CleanBase(base) && ValidKey(k) && KeysValid(t) && w in PutPairs(JoinPath(base, k), t)
    requires t.Scalar? ==> EndsInText(k)
    ensures EndsInText(w.key) && base <= w.key
    decreases t, 2
  {
    JoinPathAppends(base, k);
    CleanBaseBelow(base, k);
    EndsAfter(base, k);
    PutKey(base + k, t, w);
    KeyIsBelow(base, k, w.key);
  }

  lemma EndsAfter(base: string, k: string)
    ensures EndsInText(k) ==> EndsInText(base + k)
  {
  }

  lemma KeyIsBelow(base: string, k: string, key: string)
    requires base + k <= key || base + k + "/" <= key
    ensures base <= key
  {
  }

  /** Slash expansion: a tree puts exactly the pairs that its expansion puts. */
  lemma {:induction false} ExpandPutsTheSame(prefix: string, t: Tree, w: Pair)
    requires SlashValid(t) && CleanBase(WithSlash(prefix))
    ensures w in PutPairs(prefix, t) <==> w in PutPairs(prefix, Expand(t))
    decreases t, 1
  {
    match t
    case Scalar(_) =>
    case Dir(m) =>
      if m != map[] {
        ExpandedDirPuts(prefix, m, w);
      }
    case List(items) => ExpandedListPuts(prefix, items, w);
  }

  lemma {:induction false} ExpandedListPuts(prefix: string, items: seq<Tree>, w: Pair)
    requires SlashValid(List(items)) && CleanBase(WithSlash(prefix))
    ensures w in PutPairs(prefix, List(items)) <==> w in PutPairs(prefix, Expand(List(items)))
    decreases List(items), 0
  {
    var base, items' := WithSlash(prefix), Expand(List(items)).items;
    ListPuts(prefix, items, w);
    ListPuts(prefix, items', w);
    forall i | 0 <= i < |items|
      ensures w in PutPairs(JoinPath(base, Index(i)), items[i]) <==> w in PutPairs(JoinPath(base, Index(i)), items'[i])
    {
      IndexIsComponent(i);
      ComponentIsKey(Index(i));
      JoinPathAppends(base, Index(i));
      CleanBaseBelow(base, Index(i));
      ExpandPutsTheSame(base + Index(i), items[i], w);
    }
  }

  lemma {:induction false} ExpandedDirPuts(prefix: string, m: map<string, Tree>, w: Pair)
    requires SlashValid(Dir(m)) && CleanBase(WithSlash(prefix)) && m != map[]
    ensures w in PutPairs(prefix, Dir(m)) <==> w in PutPairs(prefix, Expand(Dir(m)))
    decreases Dir(m), 0
  {
    LeavesPut(prefix, m, w);
    LeavesAreGood(m);
    ExpandedLeavesPut(WithSlash(prefix), m, w);
    assert Expand(Dir(m)) == Dir(Nested(Leaves(Dir(m)))) by { ExpandIsNested(m); }
    var l := SomeLeaf(Dir(m));
    NestedMapPuts(prefix, Leaves(Dir(m)), w);
  }

  lemma LeavesPut(prefix: string, m: map<string, Tree>, w: Pair)
    requires KeysValid(Dir(m)) && CleanBase(WithSlash(prefix)) && m != map[]
    ensures w in PutPairs(prefix, Dir(m)) <==> PutAtLeaf(w, WithSlash(prefix), Leaves(Dir(m)))
  {
    DirPuts(prefix, m, w);
    DirPutsLeaves(WithSlash(prefix), m, w);
  }

  /** The nested map of some leaves puts what the leaves put at their paths. */
  lemma NestedMapPuts(prefix: string, ls: set<Leaf>, w: Pair)
    requires CleanBase(WithSlash(prefix)) && ls != {} && Apart(ls) && forall l | l in ls :: GoodLeaf(l)
    ensures w in PutPairs(prefix, Dir(Nested(ls))) <==> PutBelow(w, WithSlash(prefix), Expanded(ByPath(ls)))
  {
    var l :| l in ls;
    assert l.path in Expanded(ByPath(ls));
    LeavesArePaths(ls);
    NestPutsBelow(prefix, Expanded(ByPath(ls)), Longest(ls), w);
  }

  lemma {:induction false} ExpandedLeavesPut(base: string, m: map<string, Tree>, w: Pair)
    requires SlashValid(Dir(m)) && CleanBase(base) && m != map[]
    ensures PutAtLeaf(w, base, Leaves(Dir(m))) <==> PutBelow(w, base, Expanded(ByPath(Leaves(Dir(m)))))
    decreases Dir(m), -1
  {
    var ls := Leaves(Dir(m));
    forall l | l in ls
      ensures ByPath(ls)[l.path] == l.t
      ensures LeafPutsExpanded(w, base, l)
    {
      LeafIsAtItsPath(ls, l);
      LeafIsSmaller(Dir(m), l);
      LeafIsSlashValid(Dir(m), l);
      LeafPathIsValid(Dir(m), l);
      PathIsKey(l.path);
      CleanBaseBelow(base, Join(l.path));
      ExpandPutsTheSame(base + Join(l.path), l.t, w);
    }
    PutByPath(base, ls, w);
  }

  lemma PathIsKey(p: Path)
    requires p != [] && forall c | c in p :: ValidComponent(c)
    ensures ValidKey(Join(p)) && Split(Join(p)) == p
  {
    SplitOfJoin(p);
  }

  ghost predicate LeafPutsExpanded(w: Pair, base: string, l: Leaf) {
    w in PutPairs(base + Join(l.path), l.t) <==> w in PutPairs(base + Join(l.path), Expand(l.t))
  }

  lemma PutByPath(base: string, ls: set<Leaf>, w: Pair)
    requires forall l | l in ls :: ByPath(ls)[l.path] == l.t
    requires forall l | l in ls :: LeafPutsExpanded(w, base, l)
    ensures PutAtLeaf(w, base, ls) <==> PutBelow(w, base, Expanded(ByPath(ls)))
  {
    var pm := ByPath(ls);
    if PutAtLeaf(w, base, ls) {
      var l :| l in ls && w in PutPairs(base + Join(l.path), l.t);
      assert l.path in Expanded(pm) && Expanded(pm)[l.path] == Expand(l.t);
    }
    if PutBelow(w, base, Expanded(pm)) {
      var p :| p in Expanded(pm) && w in PutPairs(base + Join(p), Expanded(pm)[p]);
      assert Leaf(p, pm[p]) in ls;
    }
  }

  // ---------------------------------------------------------------- the expanded tree

  lemma {:induction false} ExpandIsValid(t: Tree)
    requires SlashValid(t)
    ensures Valid(Expand(t))
    decreases t, 1
  {
    match t
    case Scalar(_) =>
    case Dir(m) =>
      if m != map[] {
        ExpandOfDirIsValid(m);
      }
    case List(items) =>
      forall i | 0 <= i < |items| ensures Valid(Expand(items[i])) {
        ExpandIsValid(items[i]);
      }
  }

  lemma {:induction false} ExpandOfDirIsValid(m: map<string, Tree>)
    requires SlashValid(Dir(m)) && m != map[]
    ensures Valid(Expand(Dir(m)))
    decreases Dir(m), 0
  {
    var t, ls := Dir(m), Leaves(Dir(m));
    LeavesAreGood(m);
    forall l | l in ls ensures Valid(Expand(l.t)) {
      LeafIsSmaller(t, l);
      LeafIsSlashValid(t, l);
      ExpandIsValid(l.t);
    }
    ExpandIsNested(m);
    NestedIsValid(ls);
  }

  lemma NestedIsValid(ls: set<Leaf>)
    requires Apart(ls) && forall l | l in ls :: GoodLeaf(l) && Valid(Expand(l.t))
    ensures Valid(Dir(Nested(ls)))
  {
    var pm := ByPath(ls);
    forall p | p in pm ensures PathIsValid(p, Expand(pm[p])) {
      assert GoodLeaf(Leaf(p, pm[p])) && Valid(Expand(pm[p]));
    }
    LeavesArePaths(ls);
    NestIsValid(Expanded(pm), Longest(ls));
  }

  /** The chain of lookups along the path of a leaf finds the leaf in the expansion. */
  lemma ExpandLookup(m: map<string, Tree>, l: Leaf)
    requires SlashValid(Dir(m)) && m != map[] && l in Leaves(Dir(m))
    ensures Lookup(Expand(Dir(m)), l.path) == Parsed(Expand(l.t))
  {
    LeavesAreGood(m);
    ExpandIsNested(m);
    NestedLookup(Leaves(Dir(m)), l);
  }

  lemma NestedLookup(ls: set<Leaf>, l: Leaf)
    requires Apart(ls) && l in ls && forall l' | l' in ls :: GoodLeaf(l')
    ensures Lookup(Dir(Nested(ls)), l.path) == Parsed(Expand(l.t))
  {
    var pm, n := Expanded(ByPath(ls)), Longest(ls);
    LeafIsAtItsPath(ls, l);
    LeavesArePaths(ls);
    FamilyIsPaths(pm, n);
    NestLookup(pm, n, l.path);
  }

  /** A key whose value is no map with keys is found at its components. */
  lemma ExpandLookupKey(m: map<string, Tree>, k: string)
    requires SlashValid(Dir(m)) && k in m && (m[k].Dir? ==> m[k].m == map[])
    ensures Lookup(Expand(Dir(m)), Split(k)) == Parsed(Expand(m[k]))
  {
    assert Leaf([], m[k]) in Leaves(m[k]);
    assert Split(k) + [] == Split(k);
    ExpandLookup(m, Leaf(Split(k), m[k]));
  }

  // ---------------------------------------------------------------- long slices

  ghost predicate LeavesFit(ls: set<Leaf>) {
    forall l | l in ls :: Fits(l.t)
  }

  lemma {:induction false} FitsByLeaves(t: Tree)
    ensures Fits(t) <==> LeavesFit(Leaves(t))
    decreases t
  {
    if t.Dir? && t.m != map[] {
      var m := t.m;
      forall k | k in m ensures Fits(m[k]) <==> LeavesFit(Leaves(m[k])) {
        FitsByLeaves(m[k]);
      }
      DirFitsByLeaves(m);
    } else {
      assert Leaves(t) == {Leaf([], t)};
    }
  }

  lemma DirFitsByLeaves(m: map<string, Tree>)
    requires m != map[] && forall k | k in m :: Fits(m[k]) <==> LeavesFit(Leaves(m[k]))
    ensures Fits(Dir(m)) <==> LeavesFit(Leaves(Dir(m)))
  {
    if Fits(Dir(m)) {
      forall l | l in Leaves(Dir(m)) ensures Fits(l.t) {
        var k, below := LeafBelow(m, l);
        assert LeavesFit(Leaves(m[k]));
      }
    }
    if LeavesFit(Leaves(Dir(m))) {
      forall k | k in m ensures Fits(m[k]) {
        forall below | below in Leaves(m[k]) ensures Fits(below.t) {
          assert Leaf(Split(k) + below.path, below.t) in Leaves(Dir(m));
        }
      }
    }
  }

  lemma NestedFits(ls: set<Leaf>)
    requires Apart(ls) && forall l | l in ls :: GoodLeaf(l) && (Fits(Expand(l.t)) <==> Fits(l.t))
    ensures Fits(Dir(Nested(ls))) <==> LeavesFit(ls)
  {
    var pm := ByPath(ls);
    LeavesArePaths(ls);
    NestFits(Expanded(pm), Longest(ls));
    if LeavesFit(ls) {
      forall p | p in Expanded(pm) ensures Fits(Expanded(pm)[p]) {
        assert Leaf(p, pm[p]) in ls;
      }
    }
    if AllFit(Expanded(pm)) {
      forall l | l in ls ensures Fits(l.t) {
        LeafIsAtItsPath(ls, l);
        assert l.path in Expanded(pm);
      }
    }
  }

  predicate ElementFits(t: Tree) {
    match t
    case List(inner) => forall j | 0 <= j < |inner| :: Fits(inner[j])
    case _ => Fits(t)
  }

  lemma ListsFitAlike(items: seq<Tree>, items': seq<Tree>)
    requires |items| == |items'| && forall i | 0 <= i < |items| :: ElementFits(items[i]) <==> ElementFits(items'[i])
    ensures Fits(List(items)) <==> Fits(List(items'))
  {
    ListFits(items);
    ListFits(items');
  }

  lemma ListFits(items: seq<Tree>)
    ensures Fits(List(items)) <==> |items| <= 10000 && forall i | 0 <= i < |items| :: ElementFits(items[i])
  {
  }

  lemma ElementsFitAlike(inner: seq<Tree>, inner': seq<Tree>)
    requires |inner| == |inner'| && forall j | 0 <= j < |inner| :: Fits(inner[j]) <==> Fits(inner'[j])
    ensures ElementFits(List(inner)) <==> ElementFits(List(inner'))
  {
  }

  /** Splitting keys makes no slice longer or shorter. */
  lemma {:induction false} ExpandFits(t: Tree)
    requires SlashValid(t)
    ensures Fits(Expand(t)) <==> Fits(t)
    decreases t, 1
  {
    match t
    case Scalar(_) =>
    case Dir(m) =>
      if m != map[] {
        ExpandedDirFits(m);
      }
    case List(items) => ExpandedListFits(items);
  }

  lemma ExpandOfList(items: seq<Tree>) returns (items': seq<Tree>)
    ensures Expand(List(items)) == List(items') && |items'| == |items|
    ensures forall i | 0 <= i < |items| :: items'[i] == Expand(items[i])
  {
    items' := Expand(List(items)).items;
  }

  lemma {:induction false} ExpandedListFits(items: seq<Tree>)
    requires SlashValid(List(items))
    ensures Fits(Expand(List(items))) <==> Fits(List(items))
    decreases List(items), 0
  {
    var items' := ExpandOfList(items);
    forall i | 0 <= i < |items| ensures ElementFits(items[i]) <==> ElementFits(items'[i]) {
      ExpandedElementFits(items[i]);
    }
    ListsFitAlike(items, items');
  }

  lemma {:induction false} ExpandedElementFits(t: Tree)
    requires SlashValid(t)
    ensures ElementFits(Expand(t)) <==> ElementFits(t)
    decreases t, 2
  {
    match t
    case List(inner) =>
      var inner' := ExpandOfList(inner);
      forall j | 0 <= j < |inner| ensures Fits(inner[j]) <==> Fits(inner'[j]) {
        ExpandFits(inner[j]);
      }
      ElementsFitAlike(inner, inner');
    case _ => ExpandFits(t);
  }

  lemma {:induction false} ExpandedDirFits(m: map<string, Tree>)
    requires SlashValid(Dir(m)) && m != map[]
    ensures Fits(Expand(Dir(m))) <==> Fits(Dir(m))
    decreases Dir(m), 0
  {
    var ls := Leaves(Dir(m));
    LeavesAreGood(m);
    forall l | l in ls ensures Fits(Expand(l.t)) <==> Fits(l.t) {
      LeafIsSmaller(Dir(m), l);
      LeafIsSlashValid(Dir(m), l);
      ExpandFits(l.t);
    }
    ExpandIsNested(m);
    NestedFits(ls);
    FitsByLeaves(Dir(m));
  }

  // ---------------------------------------------------------------- trees without slashes

  predicate NoKeyAbove(m: map<string, Tree>) {
    forall k, k' | k in m && k' in m && k != k' :: !(Split(k) <= Split(k'))
  }

  /** In no map of the tree does the path of one key begin that of another. */
  predicate KeysApart(t: Tree) {
    match t
    case Scalar(_) => true
    case Dir(m) => NoKeyAbove(m) && forall k | k in m :: KeysApart(m[k])
    case List(items) => forall i | 0 <= i < |items| :: KeysApart(items[i])
  }

  lemma PrefixOfAppended(a: Path, r: Path, b: Path, r': Path)
    requires a + r <= b + r'
    ensures a == b ==> r <= r'
    ensures a <= b || b <= a
  {
    assert a <= a + r && b <= b + r';
    if a == b {
      assert (a + r)[|a|..] == r && (b + r')[|b|..] == r';
    }
    if |a| <= |b| {
      PrefixesOfSame(a, b, b + r');
    } else {
      PrefixesOfSame(b, a, b + r');
    }
  }

  lemma PrefixesOfSame(a: Path, b: Path, c: Path)
    requires a <= c && b <= c && |a| <= |b|
    ensures a <= b
  {
    assert a == c[..|a|] && b == c[..|b|];
    assert c[..|b|][..|a|] == c[..|a|];
  }

  lemma {:induction false} LeavesOfKeysApart(t: Tree, l: Leaf, l': Leaf)
    requires KeysApart(t) && KeysValid(t) && l in Leaves(t) && l' in Leaves(t) && l != l'
    ensures !(l.path <= l'.path)
    decreases t
  {
    if t.Dir? && t.m != map[] && l.path <= l'.path {
      var k, below := LeafBelow(t.m, l);
      var k', below' := LeafBelow(t.m, l');
      PrefixOfAppended(Split(k), below.path, Split(k'), below'.path);
      if k == k' {
        LeavesOfKeysApart(t.m[k], below, below');
      }
    }
  }

  /** If no key begins another of the same map then no leaf is below another. A caller can look at one
      map after the other. */
  lemma {:induction false} KeysApartIsSlashValid(t: Tree)
    requires KeysValid(t) && KeysApart(t)
    ensures SlashValid(t)
    decreases t
  {
    match t
    case Scalar(_) =>
    case Dir(m) =>
      forall k | k in m ensures SlashValid(m[k]) {
        KeysApartIsSlashValid(m[k]);
      }
      forall l, l' | l in Leaves(t) && l' in Leaves(t) && l != l' ensures !(l.path <= l'.path) {
        LeavesOfKeysApart(t, l, l');
      }
    case List(items) =>
      forall i | 0 <= i < |items| ensures SlashValid(items[i]) {
        KeysApartIsSlashValid(items[i]);
      }
  }

  lemma ComponentIsNotAbove(k: string, k': string)
    requires ValidComponent(k) && ValidComponent(k') && k != k'
    ensures !(Split(k) <= Split(k'))
  {
    ComponentIsKey(k);
    ComponentIsKey(k');
    assert [k][0] != [k'][0];
  }

  lemma ComponentsAreKeys(m: map<string, Tree>)
    requires Valid(Dir(m))
    ensures NoKeyAbove(m) && forall k | k in m :: KeyIsValid(k, m[k])
  {
    forall k, k' | k in m && k' in m && k != k' ensures !(Split(k) <= Split(k')) {
      ComponentIsNotAbove(k, k');
    }
    forall k | k in m ensures KeyIsValid(k, m[k]) {
      ComponentIsKey(k);
    }
  }

  lemma {:induction false} ValidIsKeysApart(t: Tree)
    requires Valid(t)
    ensures KeysValid(t) && KeysApart(t)
    decreases t
  {
    match t
    case Scalar(_) =>
    case Dir(m) =>
      ComponentsAreKeys(m);
      forall k | k in m ensures KeysValid(m[k]) && KeysApart(m[k]) {
        ValidIsKeysApart(m[k]);
      }
    case List(items) =>
      forall i | 0 <= i < |items| ensures KeysValid(items[i]) && KeysApart(items[i]) {
        ValidIsKeysApart(items[i]);
      }
  }

  /** Keys without slashes are keys, and no two of them meet. */
  lemma ValidIsSlashValid(t: Tree)
    requires Valid(t)
    ensures SlashValid(t)
  {
    ValidIsKeysApart(t);
    KeysApartIsSlashValid(t);
  }

  /** pm has the leaves of m, each at its path. */
  ghost predicate HasLeaves(pm: map<Path, Tree>, m: map<string, Tree>) {
    forall p, t :: p in pm && pm[p] == t <==> Leaf(p, t) in Leaves(Dir(m))
  }

  lemma LeavesOfComponent(m: map<string, Tree>, h: string, r: Path, t: Tree)
    requires Valid(Dir(m)) && m != map[]
    ensures Leaf([h] + r, t) in Leaves(Dir(m)) <==> h in m && Leaf(r, t) in Leaves(m[h])
  {
    if Leaf([h] + r, t) in Leaves(Dir(m)) {
      var k, below := LeafBelow(m, Leaf([h] + r, t));
      ComponentIsKey(k);
      assert ([h] + r)[0] == k && ([h] + r)[1..] == below.path == r;
    }
    if h in m && Leaf(r, t) in Leaves(m[h]) {
      ComponentIsKey(h);
    }
  }

  lemma TailsHaveLeaves(pm: map<Path, Tree>, m: map<string, Tree>, h: string)
    requires Valid(Dir(m)) && m != map[] && HasLeaves(pm, m) && h in m && m[h].Dir? && m[h].m != map[]
    ensures HasLeaves(Tails(pm, h), m[h].m)
  {
    forall r, t ensures r in Tails(pm, h) && Tails(pm, h)[r] == t <==> Leaf(r, t) in Leaves(Dir(m[h].m)) {
      TailsHave(pm, h, r);
      LeavesOfComponent(m, h, r, t);
      if Leaf(r, t) in Leaves(m[h]) {
        ValidIsSlashValid(m[h]);
        LeafPathIsValid(m[h], Leaf(r, t));
      }
    }
  }

  lemma {:induction false} NestOfLeaves(pm: map<Path, Tree>, n: nat, m: map<string, Tree>)
    requires Valid(Dir(m)) && m != map[] && HasLeaves(pm, m) && Paths(pm, n)
    ensures Nest(pm, n) == m
    decreases n, 1
  {
    NestKeys(pm, n);
    forall h ensures h in Heads(pm) <==> h in m {
      HeadOfLeaves(pm, m, h);
    }
    forall h | h in m ensures Nest(pm, n)[h] == m[h] {
      NestOfLeavesAt(pm, n, m, h);
    }
  }

  lemma {:induction false} NestOfLeavesAt(pm: map<Path, Tree>, n: nat, m: map<string, Tree>, h: string)
    requires Valid(Dir(m)) && m != map[] && HasLeaves(pm, m) && Paths(pm, n) && h in m && h in Heads(pm)
    ensures h in Nest(pm, n) && Nest(pm, n)[h] == m[h]
    decreases n, 0
  {
    NestLevel(pm, n, h);
    if [h] in pm {
      LeafAtKey(pm, m, h);
    } else {
      NotLeafAtKey(pm, m, h);
      TailsHaveLeaves(pm, m, h);
      NestOfLeaves(Tails(pm, h), n - 1, m[h].m);
    }
  }

  lemma LeafAtKey(pm: map<Path, Tree>, m: map<string, Tree>, h: string)
    requires Valid(Dir(m)) && m != map[] && HasLeaves(pm, m) && h in m && [h] in pm
    ensures pm[[h]] == m[h]
  {
    assert Leaf([h], pm[[h]]) in Leaves(Dir(m));
    assert [h] + [] == [h];
    LeavesOfComponent(m, h, [], pm[[h]]);
    OnlyLeaf(m[h], pm[[h]]);
  }

  lemma NotLeafAtKey(pm: map<Path, Tree>, m: map<string, Tree>, h: string)
    requires Valid(Dir(m)) && m != map[] && HasLeaves(pm, m) && h in m && [h] !in pm
    ensures m[h].Dir? && m[h].m != map[]
  {
    assert [h] + [] == [h];
    LeavesOfComponent(m, h, [], m[h]);
  }

  lemma HeadOfLeaves(pm: map<Path, Tree>, m: map<string, Tree>, h: string)
    requires Valid(Dir(m)) && m != map[] && HasLeaves(pm, m)
    ensures h in Heads(pm) <==> h in m
  {
    if h in Heads(pm) {
      var p :| p in pm && p != [] && p[0] == h;
      assert p == [h] + p[1..];
      LeavesOfComponent(m, h, p[1..], pm[p]);
    }
    if h in m {
      var l := SomeLeaf(m[h]);
      LeavesOfComponent(m, h, l.path, l.t);
      assert [h] + l.path in pm;
    }
  }

  lemma OnlyLeaf(t: Tree, v: Tree)
    requires Valid(t) && Leaf([], v) in Leaves(t)
    ensures t == v
  {
    ValidIsSlashValid(t);
    LeafPathIsValid(t, Leaf([], v));
  }

  /** A tree without slashes in its keys is its own expansion. */
  lemma {:induction false} ExpandOfValid(t: Tree)
    requires Valid(t)
    ensures Expand(t) == t
    decreases t, 1
  {
    match t
    case Scalar(_) =>
    case Dir(m) =>
      if m != map[] {
        ExpandOfValidDir(m);
      }
    case List(items) =>
      forall i | 0 <= i < |items| ensures Expand(items[i]) == items[i] {
        ExpandOfValid(items[i]);
      }
  }

  lemma {:induction false} ExpandOfValidDir(m: map<string, Tree>)
    requires Valid(Dir(m)) && m != map[]
    ensures Expand(Dir(m)) == Dir(m)
    decreases Dir(m), 0
  {
    var t, ls := Dir(m), Leaves(Dir(m));
    forall l | l in ls ensures Expand(l.t) == l.t {
      LeafIsValid(t, l);
      LeafIsSmaller(t, l);
      ExpandOfValid(l.t);
    }
    LeavesOfValid(m);
    LeavesArePaths(ls);
    ExpandedIsSame(ls);
    assert Expand(t) == Dir(Nested(ls)) by { ExpandIsNested(m); }
    NestOfLeaves(ByPath(ls), Longest(ls), m);
  }

  lemma ExpandedIsSame(ls: set<Leaf>)
    requires forall l | l in ls :: Expand(l.t) == l.t
    ensures Expanded(ByPath(ls)) == ByPath(ls)
  {
    forall p | p in ByPath(ls) ensures Expand(ByPath(ls)[p]) == ByPath(ls)[p] {
      assert Leaf(p, ByPath(ls)[p]) in ls;
    }
  }

  lemma LeavesOfValid(m: map<string, Tree>)
    requires Valid(Dir(m)) && m != map[]
    ensures Apart(Leaves(Dir(m))) && (forall l | l in Leaves(Dir(m)) :: GoodLeaf(l))
    ensures HasLeaves(ByPath(Leaves(Dir(m))), m)
  {
    var t, pm := Dir(m), ByPath(Leaves(Dir(m)));
    ValidIsSlashValid(t);
    LeavesAreGood(m);
    forall p, t' ensures p in pm && pm[p] == t' <==> Leaf(p, t') in Leaves(t) {
      if Leaf(p, t') in Leaves(t) { LeafIsAtItsPath(Leaves(t), Leaf(p, t')); }
    }
  }

  lemma {:induction false} LeafIsValid(t: Tree, l: Leaf)
    requires Valid(t) && l in Leaves(t)
    ensures Valid(l.t)
    decreases t
  {
    if t.Dir? && t.m != map[] {
      var k, below := LeafBelow(t.m, l);
      LeafIsValid(t.m[k], below);
    }
  }

  // ---------------------------------------------------------------- loading it

  lemma SamePairsSameWriting(before: Entries, after: Entries, w: set<Pair>, w': set<Pair>, complete: bool)
    requires Written(before, after, w, complete) && forall p :: p in w <==> p in w'
    ensures Written(before, after, w', complete)
  {
    assert w == w';
  }

  /** The expansion of a map, as a map. */
  ghost function Expansion(m: map<string, Tree>): (r: map<string, Tree>)
    ensures Dir(r) == Expand(Dir(m))
  {
    Expand(Dir(m)).m
  }

  /** Writing a tree is writing its expansion. */
  lemma WrittenIsExpanded(prefix: string, m: map<string, Tree>, before: Entries, after: Entries)
    requires CleanBase(WithSlash(prefix)) && SlashValid(Dir(m))
    requires Written(before, after, PutPairs(prefix, Dir(m)), true)
    ensures Valid(Dir(Expansion(m))) && Written(before, after, PutPairs(prefix, Dir(Expansion(m))), true)
  {
    forall w ensures w in PutPairs(prefix, Dir(m)) <==> w in PutPairs(prefix, Expand(Dir(m))) {
      ExpandPutsTheSame(prefix, Dir(m), w);
    }
    SamePairsSameWriting(before, after, PutPairs(prefix, Dir(m)), PutPairs(prefix, Expand(Dir(m))), true);
    ExpandIsValid(Dir(m));
  }

  /** The codec law for keys with slashes: what is loaded is the expanded tree. */
  lemma LoadAfterPutWithSlashes(prefix: string, m: map<string, Tree>, before: Entries, after: Entries, query: string,
                                pairs: seq<Pair>)
    requires GoodPrefix(prefix) && SlashValid(Dir(m))
    requires Written(before, after, PutPairs(prefix, Dir(m)), true)
    requires query <= WithSlash(prefix) && forall key | key in before && query <= key :: key == WithSlash(prefix)
    requires IsAnswer(pairs, after, query)
    ensures Load(pairs, prefix) == if Fits(Dir(m)) then Loaded(Reload(Expansion(m))) else Panic
  {
    WrittenIsExpanded(prefix, m, before, after);
    ExpandFits(Dir(m));
    LoadAfterPut(prefix, Expansion(m), before, after, query, pairs);
  }

  // ---------------------------------------------------------------- a profile

  lemma LeafAtScalar(m: map<string, Tree>, key: string)
    requires key in m && m[key].Scalar?
    ensures Leaf(Split(key), m[key]) in Leaves(Dir(m))
  {
    assert Leaf([], m[key]) in Leaves(m[key]);
    assert Split(key) + [] == Split(key);
  }

  /** A key of the profile, whatever slashes it has, is found at its components below "profile". */
  lemma ProfileLookup(system: map<string, Tree>, profile: map<string, Tree>, key: string)
    requires SlashValid(Dir(system)) && "profile" in system && system["profile"] == Dir(profile)
    requires key in profile && profile[key].Scalar?
    ensures Lookup(Expand(Dir(system)), Split("profile") + Split(key)) == Parsed(profile[key])
  {
    LeafAtScalar(profile, key);
    var l := Leaf(Split("profile") + Split(key), profile[key]);
    assert l in Leaves(Dir(system));
    ExpandLookup(system, l);
  }

  /** The keys of a profile are the paths of its leaves. */
  lemma ProfileLeaves(profile: map<string, Tree>, l: Leaf)
    requires profile != map[] && forall k | k in profile :: !profile[k].Dir?
    ensures l in Leaves(Dir(profile)) <==> exists k :: k in profile && l == Leaf(Split(k), profile[k])
  {
    if l in Leaves(Dir(profile)) {
      var k, below := LeafBelow(profile, l);
      assert Leaves(profile[k]) == {Leaf([], profile[k])};
      assert Split(k) + [] == Split(k);
    }
    if k :| k in profile && l == Leaf(Split(k), profile[k]) {
      assert Leaf([], profile[k]) in Leaves(profile[k]);
      assert Split(k) + [] == Split(k);
    }
  }

  /** A profile, which has texts and lists of texts, is a tree that the law is for if and only if none of
      its keys begins another one. */
  lemma ProfileIsSlashValidExactly(profile: map<string, Tree>)
    requires KeysValid(Dir(profile)) && forall k | k in profile :: !profile[k].Dir? && SlashValid(profile[k])
    ensures SlashValid(Dir(profile)) <==> NoKeyAbove(profile)
  {
    if profile == map[] {
      assert forall l, l' | l in Leaves(Dir(profile)) && l' in Leaves(Dir(profile)) :: l == l';
    } else if NoKeyAbove(profile) {
      forall l, l' | l in Leaves(Dir(profile)) && l' in Leaves(Dir(profile)) && l != l' ensures !(l.path <= l'.path) {
        ProfileLeaves(profile, l);
        ProfileLeaves(profile, l');
      }
    } else {
      var k, k' :| k in profile && k' in profile && k != k' && Split(k) <= Split(k');
      KeysBegin(profile, k, k');
    }
  }

  lemma KeysBegin(profile: map<string, Tree>, k: string, k': string)
    requires k in profile && k' in profile && k != k' && Split(k) <= Split(k')
    requires forall k | k in profile :: !profile[k].Dir?
    ensures !Apart(Leaves(Dir(profile)))
  {
    var l, l' := Leaf(Split(k), profile[k]), Leaf(Split(k'), profile[k']);
    ProfileLeaves(profile, l);
    ProfileLeaves(profile, l');
    JoinOfSplit(k);
    JoinOfSplit(k');
    assert l != l';
  }
}
