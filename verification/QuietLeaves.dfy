/** Empty strings and empty maps above other leaves, and empty strings below scalars: ListMap loads
    the same without them. */
module QuietLeaves {
  import opened Strings
  import opened GoPath
  import opened Trees
  import opened KeyTrees
  import opened Decoder
  import opened Listings
  import opened Writes
  import opened Consul
  import opened RoundTrip
  import opened Slashes
  import opened Walks
  import opened Overlaps

  // ---------------------------------------------------------------- which leaves are left

  predicate Above(p: Path, q: Path) {
    p <= q && p != q
  }

  /** An empty string or an empty map. */
  predicate Quiet(t: Tree) {
    t == EMPTY_STRING || t == Dir(map[])
  }

  /** No two leaves at one path, and no leaf below a slice. */
  ghost predicate Loose(ls: set<Leaf>) {
    forall l, l' | l in ls && l' in ls && l != l' :: l.path != l'.path && !(l.t.List? && l.path <= l'.path)
  }

  /** A scalar above a leaf that is no empty string directly below it. */
  ghost predicate BlockedBy(ls: set<Leaf>, p: Leaf, q: Leaf) {
    && p in ls && q in ls && Loud(p.t) && Above(p.path, q.path)
    && !(q.t == EMPTY_STRING && |q.path| == |p.path| + 1)
  }

  ghost predicate Blocked(ls: set<Leaf>) {
    exists p, q :: BlockedBy(ls, p, q)
  }

  /** A quiet leaf above another. */
  ghost predicate Covered(ls: set<Leaf>, x: Leaf, g: Leaf) {
    x in ls && g in ls && Quiet(x.t) && Above(x.path, g.path)
  }

  /** An empty string directly below a scalar. */
  ghost predicate Ignored(ls: set<Leaf>, x: Leaf, s: Leaf) {
    x in ls && s in ls && x.t == EMPTY_STRING && Loud(s.t) && Above(s.path, x.path) && |x.path| == |s.path| + 1
  }

  ghost predicate Redundant(ls: set<Leaf>, x: Leaf) {
    exists l :: Covered(ls, x, l) || Ignored(ls, x, l)
  }

  ghost function Kept(ls: set<Leaf>): set<Leaf> {
    set l | l in ls && !Redundant(ls, l)
  }

  /** In what is left no leaf is above another. */
  lemma KeptIsApart(ls: set<Leaf>)
    requires Loose(ls) && !Blocked(ls) && forall l | l in ls :: GoodLeaf(l)
    ensures Apart(Kept(ls))
  {
    forall l, l' | l in Kept(ls) && l' in Kept(ls) && l != l' ensures !(l.path <= l'.path) {
      if l.path <= l'.path {
        assert GoodLeaf(l);
        if Quiet(l.t) {
          assert Covered(ls, l, l');
        } else {
          assert !BlockedBy(ls, l, l');
          assert Ignored(ls, l', l);
        }
        assert false;
      }
    }
  }

  /** Without a redundant leaf the same leaves are redundant. */
  lemma KeptWithout(ls: set<Leaf>, x: Leaf)
    requires Loose(ls) && Redundant(ls, x)
    ensures Kept(ls - {x}) == Kept(ls) && ls - {x} != {}
  {
    forall y | y in ls && y != x ensures Redundant(ls, y) <==> Redundant(ls - {x}, y) {
      StillRedundant(ls, x, y);
    }
    var l :| Covered(ls, x, l) || Ignored(ls, x, l);
    assert l in ls - {x};
  }

  lemma AboveTransitive(p: Path, q: Path, r: Path)
    requires Above(p, q) && q <= r
    ensures Above(p, r)
  {
  }

  lemma StillRedundant(ls: set<Leaf>, x: Leaf, y: Leaf)
    requires Loose(ls) && Redundant(ls, x) && y in ls && y != x
    ensures Redundant(ls, y) <==> Redundant(ls - {x}, y)
  {
    if l :| Covered(ls - {x}, y, l) || Ignored(ls - {x}, y, l) {
      assert Covered(ls, y, l) || Ignored(ls, y, l);
    }
    if l :| Covered(ls, y, l) || Ignored(ls, y, l) {
      if l != x {
        assert Covered(ls - {x}, y, l) || Ignored(ls - {x}, y, l);
      } else {
        var l' :| Covered(ls, x, l') || Ignored(ls, x, l');
        if Covered(ls, x, l') {
          AboveTransitive(y.path, x.path, l'.path);
        } else {
          PrefixesOfSame(y.path, l'.path, x.path);
        }
        assert Covered(ls - {x}, y, l');
      }
    }
  }

  lemma LooseWithout(ls: set<Leaf>, x: Leaf)
    requires Loose(ls) && !Blocked(ls)
    ensures Loose(ls - {x}) && !Blocked(ls - {x})
  {
    forall p, q ensures !BlockedBy(ls - {x}, p, q) {
      assert !BlockedBy(ls, p, q);
    }
  }

  // ---------------------------------------------------------------- a listing without one pair

  function Without(pairs: seq<Pair>, i: nat): seq<Pair>
    requires i < |pairs|
  {
    pairs[..i] + pairs[i + 1..]
  }

  lemma LoadWithout(pairs: seq<Pair>, prefix: string, i: nat)
    requires i < |pairs|
    ensures Load(Without(pairs, i), prefix) == Resume(Load(pairs[..i], prefix), pairs[i + 1..], prefix)
    ensures Load(pairs, prefix) == Resume(Load(pairs[..i + 1], prefix), pairs[i + 1..], prefix)
  {
    var r := Without(pairs, i);
    ResumeLoad(r, prefix, i);
    assert r[..i] == pairs[..i] && r[i..] == pairs[i + 1..];
    ResumeLoad(pairs, prefix, i + 1);
  }

  lemma SortedWithout(pairs: seq<Pair>, i: nat)
    requires i < |pairs| && Sorted(pairs)
    ensures Sorted(Without(pairs, i))
  {
    var r := Without(pairs, i);
    forall a, b | 0 <= a < b < |r| ensures Less(r[a].key, r[b].key) {
      assert r[a] == pairs[if a < i then a else a + 1] && r[b] == pairs[if b < i then b else b + 1];
    }
  }

  lemma WithoutIs(pairs: seq<Pair>, i: nat, a: nat) returns (j: nat)
    requires i < |pairs| && a < |Without(pairs, i)|
    ensures j < |pairs| && j != i && Without(pairs, i)[a] == pairs[j]
  {
    j := if a < i then a else a + 1;
  }

  lemma WithoutHas(pairs: seq<Pair>, i: nat, j: nat)
    requires i < |pairs| && j < |pairs| && i != j
    ensures Listed(Without(pairs, i), pairs[j].key)
  {
    var r := Without(pairs, i);
    assert r[if j < i then j else j - 1] == pairs[j];
  }

  /** A leaf that is no slice has one entry, and no other leaf has one at the same path. */
  lemma OnlyLeafAt(ls: set<Leaf>, x: Leaf, k: Path, e: Entry, l: Leaf, e': Entry)
    requires Loose(ls) && (forall l | l in ls :: GoodLeaf(l)) && x in ls && l in ls && !x.t.List?
    requires EntryOf(k, e, x) && EntryOf(k, e', l)
    ensures l == x && e == e'
  {
    assert GoodLeaf(x) && GoodLeaf(l);
    match l.t {
      case Scalar(_) => NoMarker(l, x.path);
      case Dir(_) =>
        NoMarker(x, l.path);
        assert k[..|k| - 1] == l.path && k[..|k| - 1] == x.path;
      case List(_) =>
        assert x.path <= k;
        PrefixesOfSame(l.path, x.path, k);
    }
  }

  lemma PairOfOther(pairs: seq<Pair>, prefix: string, ls: set<Leaf>, x: Leaf, i: nat, k: Path, j: nat)
    requires GoodListing(pairs, prefix, ls) && Loose(ls) && x in ls && !x.t.List?
    requires i < |pairs| && HasPath(pairs[i], WithSlash(prefix), k) && EntryOf(k, pairs[i].e, x)
    requires j < |pairs| && j != i && pairs[j].key != WithSlash(prefix)
    ensures OfLeaves(pairs[j], WithSlash(prefix), ls - {x})
  {
    var base := WithSlash(prefix);
    var l :| l in ls && OfLeaf(pairs[j], base, l);
    if l == x {
      var k' := EntryPath(base, x, pairs[j]);
      SamePathOfQuiet(x, k, pairs[i].e, k', pairs[j].e);
      SortedIndex(pairs, i, j);
    }
    assert l in ls - {x};
  }

  lemma SamePathOfQuiet(x: Leaf, k: Path, e: Entry, k': Path, e': Entry)
    requires !x.t.List? && EntryOf(k, e, x) && EntryOf(k', e', x)
    ensures k == k'
  {
  }

  lemma OtherIsListed(pairs: seq<Pair>, prefix: string, ls: set<Leaf>, x: Leaf, i: nat, k: Path, w: Pair)
    requires GoodListing(pairs, prefix, ls) && Loose(ls) && x in ls && !x.t.List?
    requires i < |pairs| && HasPath(pairs[i], WithSlash(prefix), k) && EntryOf(k, pairs[i].e, x)
    requires OfLeaves(w, WithSlash(prefix), ls - {x})
    ensures Listed(Without(pairs, i), w.key)
  {
    var base := WithSlash(prefix);
    var l :| l in ls - {x} && OfLeaf(w, base, l);
    var k' := EntryPath(base, l, w);
    assert OfLeaves(w, base, ls);
    var j :| 0 <= j < |pairs| && pairs[j].key == w.key;
    if j == i {
      OnlyLeafAt(ls, x, k, pairs[i].e, l, w.e);
    }
    WithoutHas(pairs, i, j);
  }

  lemma PairWithout(pairs: seq<Pair>, prefix: string, ls: set<Leaf>, x: Leaf, i: nat, k: Path, a: nat)
    requires GoodListing(pairs, prefix, ls) && Loose(ls) && x in ls && !x.t.List?
    requires i < |pairs| && HasPath(pairs[i], WithSlash(prefix), k) && EntryOf(k, pairs[i].e, x)
    requires a < |Without(pairs, i)|
    ensures var w := Without(pairs, i)[a]; w.key == WithSlash(prefix) || OfLeaves(w, WithSlash(prefix), ls - {x})
  {
    var j := WithoutIs(pairs, i, a);
    if pairs[j].key != WithSlash(prefix) {
      PairOfOther(pairs, prefix, ls, x, i, k, j);
    }
  }

  lemma IsListsLeaves(pairs: seq<Pair>, base: string, ls: set<Leaf>)
    requires Sorted(pairs)
    requires forall a: nat | a < |pairs| :: pairs[a].key == base || OfLeaves(pairs[a], base, ls)
    requires forall w | OfLeaves(w, base, ls) :: Listed(pairs, w.key)
    ensures ListsLeaves(pairs, base, ls)
  {
  }

  /** The listing without the pair of x lists the other leaves. */
  lemma ListsWithout(pairs: seq<Pair>, prefix: string, ls: set<Leaf>, x: Leaf, i: nat, k: Path)
    requires GoodListing(pairs, prefix, ls) && Loose(ls) && x in ls && !x.t.List?
    requires i < |pairs| && HasPath(pairs[i], WithSlash(prefix), k) && EntryOf(k, pairs[i].e, x)
    ensures GoodListing(Without(pairs, i), prefix, ls - {x})
  {
    var base, r := WithSlash(prefix), Without(pairs, i);
    SortedWithout(pairs, i);
    forall a: nat | a < |r| ensures r[a].key == base || OfLeaves(r[a], base, ls - {x}) {
      PairWithout(pairs, prefix, ls, x, i, k, a);
    }
    forall w | OfLeaves(w, base, ls - {x}) ensures Listed(r, w.key) {
      OtherIsListed(pairs, prefix, ls, x, i, k, w);
    }
    IsListsLeaves(r, base, ls - {x});
  }

  /** The one entry of a leaf that is no slice. */
  lemma OnlyEntry(pairs: seq<Pair>, prefix: string, ls: set<Leaf>, x: Leaf) returns (i: nat, k: Path)
    requires GoodListing(pairs, prefix, ls) && Loose(ls) && x in ls && !x.t.List?
    ensures i < |pairs| && HasPath(pairs[i], WithSlash(prefix), k) && EntryOf(k, pairs[i].e, x)
  {
    var base := WithSlash(prefix);
    var w, k0 := SomeEntry(base, x);
    assert OfLeaves(w, base, ls);
    assert Listed(pairs, w.key);
    i :| 0 <= i < |pairs| && pairs[i].key == w.key;
    var l, k' := ListedEntry(pairs, base, ls, i);
    k := k';
    OnlyLeafAt(ls, x, k, w.e, l, pairs[i].e);
  }

  // ---------------------------------------------------------------- empty strings below scalars

  lemma LooseStands(ls: set<Leaf>, p: Leaf)
    requires Loose(ls) && p in ls && Loud(p.t)
    ensures Stands(ls, p)
  {
  }

  lemma IgnoredIsPassed(pairs: seq<Pair>, prefix: string, ls: set<Leaf>, x: Leaf, s: Leaf, i: nat)
    requires GoodListing(pairs, prefix, ls) && Loose(ls) && Ignored(ls, x, s)
    requires i < |pairs| && HasPath(pairs[i], WithSlash(prefix), x.path) && EntryOf(x.path, pairs[i].e, x)
    ensures Load(pairs[..i + 1], prefix) == Load(pairs[..i], prefix)
  {
    var base := WithSlash(prefix);
    LooseStands(ls, s);
    var j, k, l := LeafIsListed(pairs, base, ls, s);
    StandsBefore(pairs, base, s, x, j, i, x.path);
    StandsAfter(pairs, prefix, ls, s, j, i);
    LoadStep(pairs, i, prefix);
    if Load(pairs[..i], prefix).Loaded? {
      var m := Load(pairs[..i], prefix).m;
      InsertEntry(m, pairs[i], prefix, x.path);
      EntryPutsNoSlice(x.path, pairs[i].e, x, s.path);
      BelowScalar(m, x.path, pairs[i].e, s.path);
    }
  }

  // ---------------------------------------------------------------- quiet leaves above others

  /** The entry of w opens maps or changes nothing on the way down f; at the base is no entry. */
  predicate PassesPair(w: Pair, base: string, f: Path) {
    w.key == base || (base <= w.key && HasPath(w, base, Rel(w.key, base)) && Passes(Rel(w.key, base), w.e, f))
  }

  predicate EndsBelow(w: Pair, base: string, f: Path) {
    base <= w.key && w.key != base && f <= Rel(w.key, base) && |f| < |Rel(w.key, base)|
  }

  function OpenedOutcome(o: Outcome, f: Path): Outcome {
    match o
    case Loaded(m) => Loaded(Opened(m, f))
    case Panic => Panic
  }

  lemma StaysOpenByPair(m: map<string, Tree>, w: Pair, prefix: string, f: Path)
    requires GoodPrefix(prefix) && OnlyMaps(m, f) && PassesPair(w, WithSlash(prefix), f)
    ensures InsertPair(m, w, prefix).Loaded? ==> OnlyMaps(InsertPair(m, w, prefix).m, f)
  {
    if w.key == WithSlash(prefix) {
      BasePair(m, w, prefix);
    } else if InsertPair(m, w, prefix).Loaded? {
      InsertEntry(m, w, prefix, Rel(w.key, WithSlash(prefix)));
      StaysOpen(m, Rel(w.key, WithSlash(prefix)), w.e, f);
    }
  }

  lemma OpenedBeforePair(m: map<string, Tree>, w: Pair, prefix: string, f: Path)
    requires GoodPrefix(prefix) && OnlyMaps(m, f) && PassesPair(w, WithSlash(prefix), f)
    ensures InsertPair(Opened(m, f), w, prefix) == OpenedOutcome(InsertPair(m, w, prefix), f)
  {
    if w.key == WithSlash(prefix) {
      BasePair(m, w, prefix);
      BasePair(Opened(m, f), w, prefix);
    } else {
      var k := Rel(w.key, WithSlash(prefix));
      InsertEntry(m, w, prefix, k);
      InsertEntry(Opened(m, f), w, prefix, k);
      OpenedBefore(m, k, w.e, f);
    }
  }

  lemma OpenedAnywayByPair(m: map<string, Tree>, w: Pair, prefix: string, f: Path)
    requires GoodPrefix(prefix) && OnlyMaps(m, f) && PassesPair(w, WithSlash(prefix), f) &&
      EndsBelow(w, WithSlash(prefix), f)
    ensures InsertPair(Opened(m, f), w, prefix) == InsertPair(m, w, prefix)
  {
    var k := Rel(w.key, WithSlash(prefix));
    InsertEntry(m, w, prefix, k);
    InsertEntry(Opened(m, f), w, prefix, k);
    OpenedAnyway(m, k, w.e, f);
  }

  ghost predicate AllPass(pairs: seq<Pair>, base: string, f: Path) {
    forall i | 0 <= i < |pairs| :: PassesPair(pairs[i], base, f)
  }

  /** Whether the maps have been opened does not matter once an entry below them has been loaded. */
  lemma {:induction false} OpenedInTheEnd(m: map<string, Tree>, pairs: seq<Pair>, prefix: string, f: Path, i: nat,
      j: nat)
    requires GoodPrefix(prefix) && OnlyMaps(m, f) && AllPass(pairs, WithSlash(prefix), f)
    requires i <= j < |pairs| && EndsBelow(pairs[j], WithSlash(prefix), f)
    ensures Resume(Loaded(Opened(m, f)), pairs[i..], prefix) == Resume(Loaded(m), pairs[i..], prefix)
    decreases j - i
  {
    var o, o' := InsertPair(m, pairs[i], prefix), InsertPair(Opened(m, f), pairs[i], prefix);
    ResumeAt(m, pairs, prefix, i);
    ResumeAt(Opened(m, f), pairs, prefix, i);
    assert PassesPair(pairs[i], WithSlash(prefix), f);
    if i == j {
      OpenedAnywayByPair(m, pairs[i], prefix, f);
    } else {
      OpenedBeforePair(m, pairs[i], prefix, f);
      StaysOpenByPair(m, pairs[i], prefix, f);
      if o.Loaded? {
        OpenedInTheEnd(o.m, pairs, prefix, f, i + 1, j);
      }
    }
  }

  /** The way to a covered leaf, less the last component for an empty string. */
  function Way(x: Leaf): Path
    requires x.path != []
  {
    if x.t.Dir? then x.path else x.path[..|x.path| - 1]
  }

  /** No entry of a tree without blocking scalars puts anything but maps on the way to a covered leaf. */
  lemma EntryPasses(ls: set<Leaf>, x: Leaf, g: Leaf, l: Leaf, k: Path, e: Entry)
    requires Loose(ls) && !Blocked(ls) && x.path != [] && Covered(ls, x, g) && l in ls && k != [] && EntryOf(k, e, l)
    ensures Passes(k, e, Way(x))
  {
    var f := Way(x);
    assert f <= x.path;
    EntryPutsNoSlice(k, e, l, f);
    if k <= f && Decode(e) != EMPTY_STRING {
      WayIsFree(ls, x, g, l, k, e);
    }
  }

  lemma BlockedThrough(ls: set<Leaf>, x: Leaf, g: Leaf, l: Leaf)
    requires Loose(ls) && Covered(ls, x, g) && l in ls && Loud(l.t) && l.path <= x.path
    ensures Blocked(ls)
  {
    assert l != x;
    if x.t == EMPTY_STRING && |x.path| == |l.path| + 1 {
      AboveTransitive(l.path, x.path, g.path);
      assert BlockedBy(ls, l, g);
    } else {
      assert BlockedBy(ls, l, x);
    }
  }

  lemma WayIsFree(ls: set<Leaf>, x: Leaf, g: Leaf, l: Leaf, k: Path, e: Entry)
    requires Loose(ls) && !Blocked(ls) && Covered(ls, x, g) && l in ls && EntryOf(k, e, l) && k <= x.path
    ensures Decode(e) == EMPTY_STRING
  {
    if Loud(l.t) {
      BlockedThrough(ls, x, g, l);
    }
  }

  /** Every pair of the listing passes the way to a covered leaf. */
  lemma ListingPasses(pairs: seq<Pair>, prefix: string, ls: set<Leaf>, x: Leaf, g: Leaf, i: nat)
    requires GoodListing(pairs, prefix, ls) && Loose(ls) && !Blocked(ls) && x.path != [] && Covered(ls, x, g)
    requires i < |pairs|
    ensures PassesPair(pairs[i], WithSlash(prefix), Way(x))
  {
    if pairs[i].key != WithSlash(prefix) {
      var l, k := ListedEntry(pairs, WithSlash(prefix), ls, i);
      EntryPasses(ls, x, g, l, k, pairs[i].e);
    }
  }

  lemma ListingPassesAll(pairs: seq<Pair>, prefix: string, ls: set<Leaf>, x: Leaf, g: Leaf)
    requires GoodListing(pairs, prefix, ls) && Loose(ls) && !Blocked(ls) && x.path != [] && Covered(ls, x, g)
    ensures AllPass(pairs, WithSlash(prefix), Way(x))
  {
    forall i: nat | i < |pairs| ensures PassesPair(pairs[i], WithSlash(prefix), Way(x)) {
      ListingPasses(pairs, prefix, ls, x, g, i);
    }
  }

  predicate IsOpen(o: Outcome, f: Path) {
    o.Loaded? ==> OnlyMaps(o.m, f)
  }

  lemma WayStaysOpen(pairs: seq<Pair>, prefix: string, f: Path, n: nat)
    requires GoodPrefix(prefix) && n < |pairs| && PassesPair(pairs[n], WithSlash(prefix), f)
    requires IsOpen(Load(pairs[..n], prefix), f)
    ensures IsOpen(Load(pairs[..n + 1], prefix), f)
  {
    LoadStep(pairs, n, prefix);
    if Load(pairs[..n], prefix).Loaded? {
      StaysOpenByPair(Load(pairs[..n], prefix).m, pairs[n], prefix, f);
    }
  }

  lemma {:induction false} WayIsOpen(pairs: seq<Pair>, prefix: string, f: Path, n: nat)
    requires GoodPrefix(prefix) && AllPass(pairs, WithSlash(prefix), f) && n <= |pairs|
    ensures IsOpen(Load(pairs[..n], prefix), f)
  {
    if n == 0 {
      assert pairs[..0] == [];
    } else {
      WayIsOpen(pairs, prefix, f, n - 1);
      WayStaysOpen(pairs, prefix, f, n - 1);
    }
  }

  /** The entry of a covered leaf opens the maps on the way to it, and no more. */
  lemma CoveredOpens(pairs: seq<Pair>, prefix: string, x: Leaf, i: nat, k: Path)
    requires GoodPrefix(prefix) && x.path != [] && Quiet(x.t) && AllPass(pairs, WithSlash(prefix), Way(x))
    requires i < |pairs| && HasPath(pairs[i], WithSlash(prefix), k) && EntryOf(k, pairs[i].e, x)
    ensures Load(pairs[..i + 1], prefix) == OpenedOutcome(Load(pairs[..i], prefix), Way(x))
  {
    WayIsOpen(pairs, prefix, Way(x), i);
    LoadStep(pairs, i, prefix);
    if Load(pairs[..i], prefix).Loaded? {
      var m := Load(pairs[..i], prefix).m;
      InsertEntry(m, pairs[i], prefix, k);
      assert k[..|k| - 1] == Way(x);
      QuietOpens(m, k, pairs[i].e);
    }
  }

  /** The marker of an empty map is listed before the entries below the map. */
  lemma MarkerOrder(base: string, w: Pair, w': Pair, p: Path, k': Path)
    requires p != [] && HasPath(w, base, p + [""]) && HasPath(w', base, k') && p <= k' && p != k' && p + [""] != k'
    ensures Less(w.key, w'.key)
  {
    var tail := JoinOfLonger(p, k');
    JoinOfAppend(p, [""]);
    MarkerIsLess(w.key, w'.key, base, Join(p), tail);
  }

  lemma MarkerIsLess(key: string, key': string, base: string, p: string, tail: string)
    requires key == base + (p + "/" + "") && key' == base + (p + "/" + tail) && key != key'
    ensures Less(key, key')
  {
    assert key' == key + tail && key == key + "";
    assert tail != "";
    LessAfterPrefix(key, "", tail);
  }

  /** A covered leaf is listed before the leaf that covers it. */
  lemma CoveredIsFirst(pairs: seq<Pair>, prefix: string, ls: set<Leaf>, x: Leaf, g: Leaf, i: nat, k: Path)
    returns (j: nat)
    requires GoodListing(pairs, prefix, ls) && Covered(ls, x, g)
    requires i < |pairs| && HasPath(pairs[i], WithSlash(prefix), k) && EntryOf(k, pairs[i].e, x)
    ensures i < j < |pairs| && x.path != [] && EndsBelow(pairs[j], WithSlash(prefix), Way(x))
  {
    var base := WithSlash(prefix);
    assert GoodLeaf(x) && GoodLeaf(g);
    var j', k', l := LeafIsListed(pairs, base, ls, g);
    j := j';
    AboveTransitive(x.path, g.path, k');
    if x.t.Dir? {
      assert k'[|x.path|] == g.path[|x.path|];
      assert g.path[|x.path|] in g.path;
      MarkerOrder(base, pairs[i], pairs[j], x.path, k');
    } else {
      PathOrder(base, pairs[i], pairs[j], x.path, k');
    }
    SortedIndex(pairs, i, j);
    assert Way(x) <= x.path;
  }

  lemma OpenedIsPassed(pairs: seq<Pair>, prefix: string, f: Path, i: nat, j: nat)
    requires GoodPrefix(prefix) && AllPass(pairs, WithSlash(prefix), f)
    requires i < j < |pairs| && EndsBelow(pairs[j], WithSlash(prefix), f)
    requires Load(pairs[..i + 1], prefix) == OpenedOutcome(Load(pairs[..i], prefix), f)
    ensures Resume(Load(pairs[..i + 1], prefix), pairs[i + 1..], prefix) ==
            Resume(Load(pairs[..i], prefix), pairs[i + 1..], prefix)
  {
    WayIsOpen(pairs, prefix, f, i);
    if Load(pairs[..i], prefix).Loaded? {
      OpenedInTheEnd(Load(pairs[..i], prefix).m, pairs, prefix, f, i + 1, j);
    }
  }

  lemma CoveredIsPassed(pairs: seq<Pair>, prefix: string, ls: set<Leaf>, x: Leaf, g: Leaf, i: nat, k: Path)
    requires GoodListing(pairs, prefix, ls) && Loose(ls) && !Blocked(ls) && Covered(ls, x, g)
    requires i < |pairs| && HasPath(pairs[i], WithSlash(prefix), k) && EntryOf(k, pairs[i].e, x)
    ensures Resume(Load(pairs[..i + 1], prefix), pairs[i + 1..], prefix) ==
            Resume(Load(pairs[..i], prefix), pairs[i + 1..], prefix)
  {
    var j := CoveredIsFirst(pairs, prefix, ls, x, g, i, k);
    ListingPassesAll(pairs, prefix, ls, x, g);
    CoveredOpens(pairs, prefix, x, i, k);
    OpenedIsPassed(pairs, prefix, Way(x), i, j);
  }

  // ---------------------------------------------------------------- all of them

  /** ListMap loads the same without a redundant leaf. */
  lemma RedundantIsPassed(pairs: seq<Pair>, prefix: string, ls: set<Leaf>, x: Leaf) returns (r: seq<Pair>)
    requires GoodListing(pairs, prefix, ls) && Loose(ls) && !Blocked(ls) && Redundant(ls, x)
    ensures GoodListing(r, prefix, ls - {x}) && Load(r, prefix) == Load(pairs, prefix)
  {
    var l :| Covered(ls, x, l) || Ignored(ls, x, l);
    var i, k := OnlyEntry(pairs, prefix, ls, x);
    r := Without(pairs, i);
    ListsWithout(pairs, prefix, ls, x, i, k);
    LoadWithout(pairs, prefix, i);
    if Ignored(ls, x, l) {
      IgnoredIsPassed(pairs, prefix, ls, x, l, i);
    } else {
      CoveredIsPassed(pairs, prefix, ls, x, l, i, k);
    }
  }

  lemma {:induction false} KeptIsLoaded(pairs: seq<Pair>, prefix: string, ls: set<Leaf>) returns (r: seq<Pair>)
    requires GoodListing(pairs, prefix, ls) && Loose(ls) && !Blocked(ls)
    ensures GoodListing(r, prefix, Kept(ls)) && Load(r, prefix) == Load(pairs, prefix)
    ensures ls != {} ==> Kept(ls) != {}
    decreases |ls|
  {
    if x :| Redundant(ls, x) {
      var r' := RedundantIsPassed(pairs, prefix, ls, x);
      LooseWithout(ls, x);
      KeptWithout(ls, x);
      r := KeptIsLoaded(r', prefix, ls - {x});
    } else {
      assert Kept(ls) == ls;
      r := pairs;
    }
  }

  // ---------------------------------------------------------------- loading what is left

  lemma LeafOfNested(base: string, ls: set<Leaf>, w: Pair, l: Leaf)
    requires CleanBase(base) && Apart(ls) && l in ls && GoodLeaf(l) && SlashValid(l.t)
    ensures ByPath(ls)[l.path] == l.t && LeafPutsExpanded(w, base, l)
  {
    LeafIsAtItsPath(ls, l);
    LeafPrefix(base, l);
    ExpandPutsTheSame(base + Join(l.path), l.t, w);
  }

  lemma NestedTreeIsValid(ls: set<Leaf>)
    requires Apart(ls) && forall l | l in ls :: GoodLeaf(l) && SlashValid(l.t)
    ensures Valid(Dir(Nested(ls)))
  {
    forall l | l in ls ensures Valid(Expand(l.t)) {
      ExpandIsValid(l.t);
    }
    NestedIsValid(ls);
  }

  /** The entries of leaves none of which is above another are those of their nested map. */
  lemma LeavesAreNested(prefix: string, ls: set<Leaf>, w: Pair)
    requires CleanBase(WithSlash(prefix)) && Apart(ls) && ls != {}
    requires forall l | l in ls :: GoodLeaf(l) && SlashValid(l.t)
    ensures OfLeaves(w, WithSlash(prefix), ls) <==> InTree(w, WithSlash(prefix), Layout(Dir(Nested(ls))))
  {
    var base := WithSlash(prefix);
    forall l | l in ls ensures ByPath(ls)[l.path] == l.t && LeafPutsExpanded(w, base, l) {
      LeafOfNested(base, ls, w, l);
    }
    PutByPath(base, ls, w);
    assert OfLeaves(w, base, ls) <==> PutAtLeaf(w, base, ls);
    NestedMapPuts(prefix, ls, w);
    NestedTreeIsValid(ls);
    PutPairsOfDir(prefix, Nested(ls), w);
  }

  lemma ListedAreBelow(pairs: seq<Pair>, base: string, ls: set<Leaf>, kt: KeyTree)
    requires ListsLeaves(pairs, base, ls) && forall w :: OfLeaves(w, base, ls) <==> InTree(w, base, kt)
    ensures forall i | 0 <= i < |pairs| :: base <= pairs[i].key
  {
    forall i | 0 <= i < |pairs| ensures base <= pairs[i].key {
      assert pairs[i].key == base || OfLeaves(pairs[i], base, ls);
    }
  }

  lemma ListsTree(pairs: seq<Pair>, base: string, ls: set<Leaf>, kt: KeyTree)
    requires ListsLeaves(pairs, base, ls) && !kt.File? && WellFormed(kt, false)
    requires forall w :: OfLeaves(w, base, ls) <==> InTree(w, base, kt)
    ensures (forall i | 0 <= i < |pairs| :: base <= pairs[i].key) && IsListing(pairs, base, kt)
  {
    ListedAreBelow(pairs, base, ls, kt);
    forall q | Has(kt, q) && q != [""] ensures Listed(pairs, base + Join(q)) {
      EntryIsInTree(base, kt, q);
      assert OfLeaves(Pair(base + Join(q), KeyTrees.At(kt, q).value), base, ls);
    }
  }

  lemma NestedTreeFits(ls: set<Leaf>)
    requires Apart(ls) && forall l | l in ls :: GoodLeaf(l) && SlashValid(l.t)
    ensures Fits(Dir(Nested(ls))) <==> LeavesFit(ls)
  {
    forall l | l in ls ensures Fits(Expand(l.t)) <==> Fits(l.t) {
      ExpandFits(l.t);
    }
    NestedFits(ls);
  }

  lemma LeavesAreListed(pairs: seq<Pair>, prefix: string, ls: set<Leaf>)
    requires GoodListing(pairs, prefix, ls) && Apart(ls) && ls != {} && forall l | l in ls :: SlashValid(l.t)
    ensures IsListing(pairs, WithSlash(prefix), Layout(Dir(Nested(ls)))) && Valid(Dir(Nested(ls)))
  {
    var base, kt := WithSlash(prefix), Layout(Dir(Nested(ls)));
    NestedTreeIsValid(ls);
    LayoutWellFormed(Dir(Nested(ls)));
    forall w ensures OfLeaves(w, base, ls) <==> InTree(w, base, kt) {
      LeavesAreNested(prefix, ls, w);
    }
    ListsTree(pairs, base, ls, kt);
  }

  /** A listing of leaves none of which is above another is loaded as their nested map. */
  lemma LoadOfLeaves(pairs: seq<Pair>, prefix: string, ls: set<Leaf>)
    requires GoodListing(pairs, prefix, ls) && Apart(ls) && ls != {} && forall l | l in ls :: SlashValid(l.t)
    ensures Load(pairs, prefix) == if LeavesFit(ls) then Loaded(Reload(Nested(ls))) else Panic
  {
    NestedTreeFits(ls);
    LeavesAreListed(pairs, prefix, ls);
    LoadOfLayout(Nested(ls), pairs, prefix);
  }

  lemma KeptFit(ls: set<Leaf>)
    ensures LeavesFit(Kept(ls)) <==> LeavesFit(ls)
  {
    forall l | l in ls && l !in Kept(ls) ensures Fits(l.t) {
      assert Redundant(ls, l);
    }
  }

  /** ListMap over any listing of leaves of which no two share a path and none is below a slice. It
      panics exactly if a scalar blocks another leaf or a slice is too long; otherwise it loads the
      nested map of the leaves without the redundant ones. */
  lemma LoadOfLooseLeaves(pairs: seq<Pair>, prefix: string, ls: set<Leaf>)
    requires GoodListing(pairs, prefix, ls) && Loose(ls) && ls != {} && forall l | l in ls :: SlashValid(l.t)
    ensures Load(pairs, prefix) ==
      if Blocked(ls) || !LeavesFit(ls) then Panic else Loaded(Reload(Nested(Kept(ls))))
  {
    if p, q :| BlockedBy(ls, p, q) {
      LooseStands(ls, p);
      ScalarAbovePanics(pairs, prefix, ls, p, q);
    } else {
      var r := KeptIsLoaded(pairs, prefix, ls);
      KeptIsApart(ls);
      KeptFit(ls);
      LoadOfLeaves(r, prefix, Kept(ls));
    }
  }

  /** The same for what PutMap has written, whatever its keys with slashes have in common. */
  lemma LoadOfLooseTree(prefix: string, m: map<string, Tree>, before: Entries, after: Entries, query: string,
      pairs: seq<Pair>)
    requires GoodPrefix(prefix) && KeysValid(Dir(m)) && m != map[]
    requires Loose(Leaves(Dir(m))) && forall l | l in Leaves(Dir(m)) :: SlashValid(l.t)
    requires Written(before, after, PutPairs(prefix, Dir(m)), true)
    requires query <= WithSlash(prefix) && forall key | key in before && query <= key :: key == WithSlash(prefix)
    requires IsAnswer(pairs, after, query)
    ensures Load(pairs, prefix) ==
      if Blocked(Leaves(Dir(m))) || !Fits(Dir(m)) then Panic else Loaded(Reload(Nested(Kept(Leaves(Dir(m))))))
  {
    FitsByLeaves(Dir(m));
    LeavesAreGood(m);
    WrittenListsLeaves(prefix, m, before, after, query, pairs);
    var l := SomeLeaf(Dir(m));
    LoadOfLooseLeaves(pairs, prefix, Leaves(Dir(m)));
  }

  /** A tree of which no leaf is above another is loaded as its expansion. */
  lemma ApartIsKept(m: map<string, Tree>)
    requires Apart(Leaves(Dir(m))) && m != map[]
    ensures Loose(Leaves(Dir(m))) && !Blocked(Leaves(Dir(m))) && Dir(Nested(Kept(Leaves(Dir(m))))) == Expand(Dir(m))
  {
    var ls := Leaves(Dir(m));
    forall x | x in ls ensures !Redundant(ls, x) {
    }
    assert Kept(ls) == ls;
    ExpandIsNested(m);
  }
}
