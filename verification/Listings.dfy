/** ListMap over the sorted listing of a whole layout. */
module Listings {
  import opened Strings
  import opened Decimal
  import opened Trees
  import opened KeyTrees
  import opened Decoder
  import opened Progress
  import opened Order

  /** A prefix with its slash that TrimBlanks leaves alone. */
  predicate PlainBase(base: string) {
    HasSuffixSlash(base) && base[0] != ' '
  }

  ghost predicate Sorted(pairs: seq<Pair>) {
    forall i, j | 0 <= i < j < |pairs| :: Less(pairs[i].key, pairs[j].key)
  }

  function Rel(key: string, base: string): Path
    requires base <= key
  {
    Split(key[|base|..])
  }

  ghost predicate Listed(pairs: seq<Pair>, key: string) {
    exists i :: 0 <= i < |pairs| && pairs[i].key == key
  }

  /** The sorted pairs are the entries of kt below base. At the key base itself there may be
      anything: the marker of an empty map, or the entry of a lock. */
  ghost predicate IsListing(pairs: seq<Pair>, base: string, kt: KeyTree) {
    && Sorted(pairs)
    && (forall i | 0 <= i < |pairs| ::
      base <= pairs[i].key && (pairs[i].key != base ==> At(kt, Rel(pairs[i].key, base)) == Parsed(pairs[i].e)))
    && forall q | Has(kt, q) && q != [""] :: Listed(pairs, base + Join(q))
  }

  /** The relative paths of the first n pairs. */
  function PathsOf(pairs: seq<Pair>, base: string, n: nat): set<Path>
    requires n <= |pairs| && forall i | 0 <= i < |pairs| :: base <= pairs[i].key
  {
    set i | 0 <= i < n && pairs[i].key != base :: Rel(pairs[i].key, base)
  }

  // ---------------------------------------------------------------- keys of a layout

  /** Components without slashes, the last of which does not end in a blank. */
  predicate PlainPath(q: Path) {
    && q != []
    && (forall c | c in q :: '/' !in c)
    && (q[|q| - 1] == "" || q[|q| - 1][|q[|q| - 1]| - 1] != ' ')
  }

  lemma PlainCons(q: Path)
    requires q != [] && '/' !in q[0]
    requires if q[1..] == [] then q[0] == "" || q[0][|q[0]| - 1] != ' ' else PlainPath(q[1..])
    ensures PlainPath(q)
  {
    assert q == [q[0]] + q[1..];
  }

  lemma {:induction false} PathsArePlain(kt: KeyTree, inSlice: bool, q: Path)
    requires !kt.File? && WellFormed(kt, inSlice) && Has(kt, q)
    ensures PlainPath(q)
    decreases kt
  {
    if kt.Folder? {
      var c := kt.m[q[0]];
      assert At(kt, q) == At(c, q[1..]);
      if !c.File? {
        PathsArePlain(c, false, q[1..]);
      }
      PlainCons(q);
    } else if q != [""] {
      var c := kt.items[IndexOf(q[0], |kt.items|).value];
      assert At(kt, q) == At(c, q[1..]);
      if !c.File? {
        PathsArePlain(c, true, q[1..]);
      }
      assert IsDigit(q[0][|q[0]| - 1]);
      PlainCons(q);
    }
  }

  lemma {:induction false} JoinEndsPlain(q: Path)
    requires PlainPath(q)
    ensures Join(q) == "" || Join(q)[|Join(q)| - 1] != ' '
  {
    if |q| > 1 {
      assert q[1..][|q| - 2] == q[|q| - 1];
      JoinEndsPlain(q[1..]);
    }
  }

  lemma BelowOfPlain(key: string, offset: string)
    requires PlainBase(WithSlash(offset)) && WithSlash(offset) <= key && key[|key| - 1] != ' '
    ensures Below(key, offset) == key[|WithSlash(offset)|..]
  {
  }

  // ---------------------------------------------------------------- one pair of a listing

  /** The i-th pair of a listing: ListMap cuts its key to the path of an entry. */
  lemma PairPath(pairs: seq<Pair>, offset: string, kt: KeyTree, i: nat) returns (q: Path)
    requires kt.Folder? && WellFormed(kt, false) && PlainBase(WithSlash(offset))
    requires IsListing(pairs, WithSlash(offset), kt) && i < |pairs| && pairs[i].key != WithSlash(offset)
    ensures q == Rel(pairs[i].key, WithSlash(offset)) && At(kt, q) == Parsed(pairs[i].e)
    ensures q == Split(Below(pairs[i].key, offset)) && Below(pairs[i].key, offset) != ""
    ensures pairs[i].key == WithSlash(offset) + Join(q) && q != [""]
  {
    var base, key := WithSlash(offset), pairs[i].key;
    q := Rel(key, base);
    var rest := key[|base|..];
    PathsArePlain(kt, false, q);
    JoinOfSplit(rest);
    JoinEndsPlain(q);
    assert key == base + rest;
    BelowAfterPlain(base, rest, offset);
  }

  lemma BelowAfterPlain(base: string, rest: string, offset: string)
    requires base == WithSlash(offset) && PlainBase(base) && rest != "" && rest[|rest| - 1] != ' '
    ensures Below(base + rest, offset) == rest
  {
    BelowOfPlain(base + rest, offset);
  }

  /** Before the i-th pair exactly the entries with smaller paths have been seen. */
  lemma SeenIsListedBefore(pairs: seq<Pair>, offset: string, kt: KeyTree, i: nat, q: Path)
    requires kt.Folder? && "" !in kt.m && WellFormed(kt, false) && PlainBase(WithSlash(offset))
    requires IsListing(pairs, WithSlash(offset), kt) && i < |pairs| && pairs[i].key == WithSlash(offset) + Join(q)
    ensures ListedBefore(kt, PathsOf(pairs, WithSlash(offset), i), q)
    ensures pairs[i].key != WithSlash(offset) ==>
      Rel(pairs[i].key, WithSlash(offset)) !in PathsOf(pairs, WithSlash(offset), i)
  {
    var base := WithSlash(offset);
    var d := PathsOf(pairs, base, i);
    forall p | p in d ensures Has(kt, p) && Less(Join(p), Join(q)) {
      var j :| 0 <= j < i && pairs[j].key != base && p == Rel(pairs[j].key, base);
      var p' := PairPath(pairs, offset, kt, j);
      LessAfterPrefix(base, Join(p), Join(q));
    }
    forall p | Has(kt, p) && Less(Join(p), Join(q)) ensures p in d {
      assert Listed(pairs, base + Join(p));
      var j :| 0 <= j < |pairs| && pairs[j].key == base + Join(p);
      LessAfterPrefix(base, Join(p), Join(q));
      if j >= i {
        LessIrreflexive(pairs[i].key);
        if j > i { LessAsymmetric(pairs[i].key, pairs[j].key); }
        assert false;
      }
      PathIsFound(kt, pairs, base, j, p);
    }
    if pairs[i].key != base {
      var r := PairPath(pairs, offset, kt, i);
      if r in d {
        assert pairs[i].key == base + Join(r);
        assert Join(r) == Join(q);
        LessIrreflexive(Join(q));
        assert false;
      }
    }
  }

  lemma PathIsFound(kt: KeyTree, pairs: seq<Pair>, base: string, j: nat, p: Path)
    requires kt.Folder? && "" !in kt.m && WellFormed(kt, false) && Has(kt, p)
    requires j < |pairs| && pairs[j].key == base + Join(p)
    ensures pairs[j].key != base && Rel(pairs[j].key, base) == p
  {
    PathsArePlain(kt, false, p);
    SplitOfJoin(p);
    assert pairs[j].key[|base|..] == Join(p);
    assert p[0] != "";
  }

  // ---------------------------------------------------------------- the whole listing

  lemma PathsOfStep(pairs: seq<Pair>, base: string, n: nat)
    requires n < |pairs| && forall i | 0 <= i < |pairs| :: base <= pairs[i].key
    ensures PathsOf(pairs, base, n + 1) ==
      if pairs[n].key == base then PathsOf(pairs, base, n) else PathsOf(pairs, base, n) + {Rel(pairs[n].key, base)}
  {
  }

  /** After n pairs the tree under construction is the part of the final tree they stand for, or
      ListMap has panicked. It panics at a pair exactly if that pair is not admissible. */
  ghost predicate Progressed(pairs: seq<Pair>, offset: string, kt: KeyTree, n: nat)
    requires kt.Folder? && n <= |pairs| && forall i | 0 <= i < |pairs| :: WithSlash(offset) <= pairs[i].key
  {
    var d := PathsOf(pairs, WithSlash(offset), n);
    Load(pairs[..n], offset) == Loaded(PartValue(kt, d).m) && Reached(kt, d)
  }

  /** What the next entry of a listing does to the part that has been loaded. */
  lemma EntryStep(kt: KeyTree, d: set<Path>, q: Path)
    requires kt.Folder? && WellFormed(kt, false) && Reached(kt, d)
    requires q !in d && Has(kt, q) && ListedBefore(kt, d, q)
    ensures Steps(kt, d, q) && (Admissible(kt, d, q) ==> Reached(kt, d + {q}))
  {
    ListedIsMarked(kt, false, d, q);
    InsertStep(kt, false, d, q);
    if Admissible(kt, d, q) {
      ReachedStep(kt, false, d, q);
    }
  }

  /** The entry at the offset itself, such as a lock, is passed over. */
  lemma LoadBasePair(pairs: seq<Pair>, offset: string, kt: KeyTree, n: nat)
    requires kt.Folder? && "" !in kt.m && WellFormed(kt, false) && PlainBase(WithSlash(offset))
    requires IsListing(pairs, WithSlash(offset), kt) && n < |pairs| && Progressed(pairs, offset, kt, n)
    requires pairs[n].key == WithSlash(offset)
    ensures Progressed(pairs, offset, kt, n + 1)
  {
    LoadStep(pairs, n, offset);
    PathsOfStep(pairs, WithSlash(offset), n);
    BelowOfPlain(WithSlash(offset), offset);
  }

  lemma LoadEntryPair(pairs: seq<Pair>, offset: string, kt: KeyTree, n: nat, q: Path)
    requires kt.Folder? && "" !in kt.m && WellFormed(kt, false) && PlainBase(WithSlash(offset))
    requires IsListing(pairs, WithSlash(offset), kt) && n < |pairs| && Progressed(pairs, offset, kt, n)
    requires pairs[n].key != WithSlash(offset) && q == Rel(pairs[n].key, WithSlash(offset)) &&
      At(kt, q) == Parsed(pairs[n].e)
    requires q == Split(Below(pairs[n].key, offset)) && Below(pairs[n].key, offset) != ""
    requires Steps(kt, PathsOf(pairs, WithSlash(offset), n), q)
    requires var d := PathsOf(pairs, WithSlash(offset), n); Admissible(kt, d, q) ==> Reached(kt, d + {q})
    ensures if Admissible(kt, PathsOf(pairs, WithSlash(offset), n), q)
            then Progressed(pairs, offset, kt, n + 1) else Load(pairs[..n + 1], offset) == Panic
  {
    LoadStep(pairs, n, offset);
    PathsOfStep(pairs, WithSlash(offset), n);
  }

  lemma LoadOnePair(pairs: seq<Pair>, offset: string, kt: KeyTree, n: nat)
    requires kt.Folder? && "" !in kt.m && WellFormed(kt, false) && PlainBase(WithSlash(offset))
    requires IsListing(pairs, WithSlash(offset), kt) && n < |pairs| && Progressed(pairs, offset, kt, n)
    ensures var d, p := PathsOf(pairs, WithSlash(offset), n), pairs[n];
      && (p.key != WithSlash(offset) ==> Has(kt, Rel(p.key, WithSlash(offset))))
      && if p.key == WithSlash(offset) || Admissible(kt, d, Rel(p.key, WithSlash(offset)))
         then Progressed(pairs, offset, kt, n + 1) else Load(pairs[..n + 1], offset) == Panic
  {
    if pairs[n].key == WithSlash(offset) {
      LoadBasePair(pairs, offset, kt, n);
    } else {
      var q := PairPath(pairs, offset, kt, n);
      SeenIsListedBefore(pairs, offset, kt, n, q);
      EntryStep(kt, PathsOf(pairs, WithSlash(offset), n), q);
      LoadEntryPair(pairs, offset, kt, n, q);
    }
  }

  /** While the slices fit four digits, no pair of the listing makes ListMap panic. */
  /** What a beginning of a listing has loaded; a panic is only for trees with a slice that is too
      long. */
  ghost predicate LoadedSoFar(pairs: seq<Pair>, offset: string, kt: KeyTree, n: nat)
    requires kt.Folder? && n <= |pairs| && forall i | 0 <= i < |pairs| :: WithSlash(offset) <= pairs[i].key
  {
    Progressed(pairs, offset, kt, n) || (!FitsIndex(kt) && Load(pairs[..n], offset) == Panic)
  }

  lemma {:induction false} LoadPrefix(pairs: seq<Pair>, offset: string, kt: KeyTree, n: nat)
    requires kt.Folder? && "" !in kt.m && WellFormed(kt, false) && PlainBase(WithSlash(offset))
    requires IsListing(pairs, WithSlash(offset), kt) && n <= |pairs|
    ensures LoadedSoFar(pairs, offset, kt, n)
  {
    if n == 0 {
      NothingProgressed(pairs, offset, kt);
    } else {
      LoadPrefix(pairs, offset, kt, n - 1);
      LoadPrefixStep(pairs, offset, kt, n - 1);
    }
  }

  lemma NothingProgressed(pairs: seq<Pair>, offset: string, kt: KeyTree)
    requires kt.Folder? && IsListing(pairs, WithSlash(offset), kt)
    ensures Progressed(pairs, offset, kt, 0)
  {
    NothingReached(kt);
    assert PathsOf(pairs, WithSlash(offset), 0) == {};
    assert PartValue(kt, {}).m == map[];
  }

  lemma LoadPrefixStep(pairs: seq<Pair>, offset: string, kt: KeyTree, n: nat)
    requires kt.Folder? && "" !in kt.m && WellFormed(kt, false) && PlainBase(WithSlash(offset))
    requires IsListing(pairs, WithSlash(offset), kt) && n < |pairs|
    requires LoadedSoFar(pairs, offset, kt, n)
    ensures LoadedSoFar(pairs, offset, kt, n + 1)
  {
    LoadStep(pairs, n, offset);
    if Progressed(pairs, offset, kt, n) {
      LoadOnePair(pairs, offset, kt, n);
      if FitsIndex(kt) && pairs[n].key != WithSlash(offset) {
        var q := PairPath(pairs, offset, kt, n);
        SeenIsListedBefore(pairs, offset, kt, n, q);
        ListedIsAdmissible(kt, false, PathsOf(pairs, WithSlash(offset), n), q);
      }
    }
  }

  /** A slice with more than 10000 elements makes ListMap index past the end of a slice. */
  lemma LoadOfLongSlicePanics(pairs: seq<Pair>, offset: string, kt: KeyTree)
    requires kt.Folder? && "" !in kt.m && WellFormed(kt, false) && PlainBase(WithSlash(offset))
    requires IsListing(pairs, WithSlash(offset), kt) && !FitsIndex(kt)
    ensures Load(pairs, offset) == Panic
  {
    var base := WithSlash(offset);
    var q := LongSliceBlocks(kt, false);
    assert Listed(pairs, base + Join(q));
    var n :| 0 <= n < |pairs| && pairs[n].key == base + Join(q);
    PathIsFound(kt, pairs, base, n, q);
    SeenIsListedBefore(pairs, offset, kt, n, q);
    LoadPrefix(pairs, offset, kt, n);
    if Progressed(pairs, offset, kt, n) {
      LoadOnePair(pairs, offset, kt, n);
      PanicStays(pairs, offset, n + 1);
    } else {
      PanicStays(pairs, offset, n);
    }
  }

  // ---------------------------------------------------------------- the final tree

  ghost predicate Everything(kt: KeyTree, d: set<Path>) {
    forall q :: q in d <==> Has(kt, q)
  }

  lemma EverythingBelow(kt: KeyTree, d: set<Path>, k: string, c: KeyTree)
    requires Everything(kt, d)
    requires forall r: Path :: At(kt, [k] + r) == At(c, r)
    ensures Everything(c, Sub(d, k))
  {
    forall r ensures r in Sub(d, k) <==> Has(c, r) {
      SubHas(d, k, r);
    }
  }

  /** With all its entries seen, the layout of a tree stands for the reloaded tree. */
  lemma {:induction false} AllOfLayout(t: Tree, d: set<Path>)
    requires Valid(t) && Everything(Layout(t), d)
    ensures PartValue(Layout(t), d) == ReloadValue(t)
    decreases t, 1
  {
    var kt := Layout(t);
    match t
    case Scalar(v) => ScalarRoundTrip(v);
    case Dir(m) =>
      var after := PartValue(kt, d).m;
      forall k ensures k in after <==> k in m && m[k] != EMPTY_STRING
               ensures k in after ==> after[k] == ReloadValue(m[k])
      {
        FolderPart(kt, d, k);
        if k in kt.m {
          LayoutChild(m, d, k);
        }
        if k in m {
          AllOfLayout(m[k], Sub(d, k));
          ShownLayout(m[k], Sub(d, k));
        }
      }
    case List(items) => AllOfSlice(items, d);
  }

  lemma LayoutChild(m: map<string, Tree>, d: set<Path>, k: string)
    requires Valid(Dir(m)) && Everything(Layout(Dir(m)), d) && k in Layout(Dir(m)).m
    ensures k !in m ==> m == map[] && Layout(Dir(m)).m[k] == File(EMPTY_DIR)
    ensures k in m ==> Layout(Dir(m)).m[k] == Layout(m[k]) && Everything(Layout(m[k]), Sub(d, k))
  {
    if k in m {
      var kt := Layout(Dir(m));
      forall r: Path ensures At(kt, [k] + r) == At(Layout(m[k]), r) {
        assert ([k] + r)[1..] == r;
      }
      EverythingBelow(kt, d, k, Layout(m[k]));
    }
  }

  lemma ShownLayout(t: Tree, d: set<Path>)
    requires Valid(t) && Everything(Layout(t), d)
    ensures Shown(Layout(t), d) <==> t != EMPTY_STRING
  {
    LayoutWellFormed(t);
    var q := SomePath(Layout(t), false);
    assert q in d;
    if t.Scalar? { ScalarRoundTrip(t.v); }
  }

  lemma {:induction false} AllOfSlice(items: seq<Tree>, d: set<Path>)
    requires Valid(List(items)) && Everything(Layout(List(items)), d)
    ensures PartValue(Layout(List(items)), d) == ReloadValue(List(items))
    decreases List(items), 0
  {
    var kt := Layout(List(items));
    forall i: nat | i < |items|
      ensures Sub(d, Index(i)) != {} && PartElement(kt.items[i], Sub(d, Index(i))) == ReloadElement(items[i])
    {
      IndexOfIndex(i, |items|);
      forall r: Path ensures At(kt, [Index(i)] + r) == At(kt.items[i], r) {
        var p := [Index(i)] + r;
        assert p[1..] == r && p[0] == Index(i) && p != [""];
      }
      EverythingBelow(kt, d, Index(i), kt.items[i]);
      LayoutElementWellFormed(items[i]);
      var q := SomePath(kt.items[i], true);
      assert q in Sub(d, Index(i));
      AllOfElement(items[i], Sub(d, Index(i)));
    }
    assert Seen(d, 0, |items|) == |items|;
  }

  lemma {:induction false} AllOfElement(t: Tree, d: set<Path>)
    requires Valid(t) && Everything(LayoutElement(t), d)
    ensures PartElement(LayoutElement(t), d) == ReloadElement(t)
    decreases t, 2
  {
    match t
    case Scalar(_) =>
    case Dir(_) => AllOfLayout(t, d);
    case List(inner) => AllOfNestedSlice(inner, d);
  }

  predicate SameAtKey(after: map<string, Tree>, expected: map<string, Tree>, k: string) {
    (k in after <==> k in expected) && (k in after ==> after[k] == expected[k])
  }

  lemma SameAtAllKeys(after: map<string, Tree>, expected: map<string, Tree>)
    requires forall k :: SameAtKey(after, expected, k)
    ensures after == expected
  {
    forall k ensures k in after <==> k in expected {
      assert SameAtKey(after, expected, k);
    }
    forall k | k in after ensures after[k] == expected[k] {
      assert SameAtKey(after, expected, k);
    }
  }

  lemma {:induction false} AllOfNestedSlice(inner: seq<Tree>, d: set<Path>)
    requires Valid(List(inner)) && Everything(LayoutElement(List(inner)), d)
    ensures PartElement(LayoutElement(List(inner)), d) == ReloadElement(List(inner))
    decreases List(inner), 1
  {
    var after, expected := PartElement(LayoutElement(List(inner)), d), ReloadElement(List(inner));
    forall k ensures SameAtKey(after, expected, k) {
      AllOfNestedKey(inner, d, k);
    }
    SameAtAllKeys(after, expected);
  }

  lemma {:induction false} AllOfNestedKey(inner: seq<Tree>, d: set<Path>, k: string)
    requires Valid(List(inner)) && Everything(LayoutElement(List(inner)), d)
    ensures SameAtKey(PartElement(LayoutElement(List(inner)), d), ReloadElement(List(inner)), k)
    decreases List(inner), 0
  {
    NestedSlice(inner);
    if k == "" {
      NestedMarker(inner, d);
    } else if k in LayoutElement(List(inner)).m {
      var i: nat :| i < |inner| && k == Index(i);
      NestedChild(inner, d, k);
      AllOfLayout(inner[i], Sub(d, k));
      NestedKey(inner, d, k, i);
    } else {
      NestedNothing(inner, d, k);
    }
  }

  lemma NestedKey(inner: seq<Tree>, d: set<Path>, k: string, i: nat)
    requires Valid(List(inner)) && i < |inner| && k == Index(i)
    requires Everything(Layout(inner[i]), Sub(d, k))
    requires PartValue(Layout(inner[i]), Sub(d, k)) == ReloadValue(inner[i])
    ensures SameAtKey(PartElement(LayoutElement(List(inner)), d), ReloadElement(List(inner)), k)
  {
    NestedSlice(inner);
    NestedReload(inner);
    FolderPart(LayoutElement(List(inner)), d, k);
    ShownLayout(inner[i], Sub(d, k));
  }

  lemma NestedMarker(inner: seq<Tree>, d: set<Path>)
    requires Everything(LayoutElement(List(inner)), d)
    ensures var after, expected := PartElement(LayoutElement(List(inner)), d), ReloadElement(List(inner));
      "" in after && "" in expected && after[""] == expected[""]
  {
    NestedChild(inner, d, "");
    FolderPart(LayoutElement(List(inner)), d, "");
    assert Decode(SLICE_MARK) == List([]);
    NestedReload(inner);
  }

  lemma NestedNothing(inner: seq<Tree>, d: set<Path>, k: string)
    requires k != "" && k !in LayoutElement(List(inner)).m
    ensures k !in PartElement(LayoutElement(List(inner)), d) && k !in ReloadElement(List(inner))
  {
    FolderPart(LayoutElement(List(inner)), d, k);
    NestedReload(inner);
    if k in ReloadElement(List(inner)) {
      var i: nat :| i < |inner| && k == Index(i);
      NestedSlice(inner);
      assert false;
    }
  }

  lemma WithoutEmptyAt(n: map<string, Tree>, m: map<string, Tree>, k: string)
    requires m == map["" := List([])] + WithoutEmptyStrings(n) && k != ""
    ensures k in m <==> k in n && n[k] != EMPTY_STRING
    ensures k in m ==> m[k] == n[k]
  {
  }

  lemma NestedReload(inner: seq<Tree>)
    ensures var m := ReloadElement(List(inner));
      && "" in m && m[""] == List([])
      && (forall i: nat | i < |inner| :: Index(i) in m <==> inner[i] != EMPTY_STRING)
      && (forall i: nat | i < |inner| && Index(i) in m :: m[Index(i)] == ReloadValue(inner[i]))
      && forall k | k in m && k != "" :: exists i: nat :: i < |inner| && k == Index(i)
  {
    var m, values := ReloadElement(List(inner)), seq(|inner|, i requires 0 <= i < |inner| => ReloadValue(inner[i]));
    assert "" !in Numbered(values);
    forall i: nat | i < |inner|
      ensures Index(i) in m <==> inner[i] != EMPTY_STRING
      ensures Index(i) in m ==> m[Index(i)] == ReloadValue(inner[i])
    {
      WithoutEmptyAt(Numbered(values), m, Index(i));
    }
    forall k | k in m && k != "" ensures exists i: nat :: i < |inner| && k == Index(i) {
      WithoutEmptyAt(Numbered(values), m, k);
    }
  }

  lemma NestedChild(inner: seq<Tree>, d: set<Path>, k: string)
    requires Everything(LayoutElement(List(inner)), d) && (k == "" || k in LayoutElement(List(inner)).m)
    ensures k in LayoutElement(List(inner)).m
    ensures k == "" ==> LayoutElement(List(inner)).m[k] == File(SLICE_MARK) && Sub(d, k) != {}
    ensures Everything(LayoutElement(List(inner)).m[k], Sub(d, k))
  {
    var kt := LayoutElement(List(inner));
    NestedSlice(inner);
    forall r: Path ensures At(kt, [k] + r) == At(kt.m[k], r) {
      assert ([k] + r)[1..] == r;
    }
    EverythingBelow(kt, d, k, kt.m[k]);
    if k == "" {
      assert Has(kt.m[k], []);
      assert [] in Sub(d, k);
    }
  }

  // ---------------------------------------------------------------- round trip

  /** The codec law, on the listing: ListMap over the sorted entries of a valid tree is the
      reloaded tree as long as its slices fit four digits, and a panic if one does not. */
  lemma LoadOfLayout(m: map<string, Tree>, pairs: seq<Pair>, offset: string)
    requires Valid(Dir(m)) && PlainBase(WithSlash(offset))
    requires IsListing(pairs, WithSlash(offset), Layout(Dir(m)))
    ensures Load(pairs, offset) == if Fits(Dir(m)) then Loaded(Reload(m)) else Panic
  {
    var kt, base := Layout(Dir(m)), WithSlash(offset);
    LayoutWellFormed(Dir(m));
    LayoutFits(Dir(m));
    if m == map[] {
      LoadOfNothing(pairs, offset, |pairs|);
      assert pairs[..|pairs|] == pairs;
    } else if Fits(Dir(m)) {
      assert "" !in kt.m;
      LoadPrefix(pairs, offset, kt, |pairs|);
      assert pairs[..|pairs|] == pairs;
      var d := PathsOf(pairs, base, |pairs|);
      forall q ensures q in d <==> Has(kt, q) {
        if Has(kt, q) {
          assert Listed(pairs, base + Join(q)) by { PathsArePlain(kt, false, q); }
          var n :| 0 <= n < |pairs| && pairs[n].key == base + Join(q);
          PathIsFound(kt, pairs, base, n, q);
        }
      }
      AllOfLayout(Dir(m), d);
    } else {
      LoadOfLongSlicePanics(pairs, offset, kt);
    }
  }

  lemma {:induction false} LoadOfNothing(pairs: seq<Pair>, offset: string, n: nat)
    requires PlainBase(WithSlash(offset)) && IsListing(pairs, WithSlash(offset), Layout(Dir(map[]))) && n <= |pairs|
    ensures Load(pairs[..n], offset) == Loaded(map[])
  {
    if n > 0 {
      LoadOfNothing(pairs, offset, n - 1);
      LoadStep(pairs, n - 1, offset);
      var base, key := WithSlash(offset), pairs[n - 1].key;
      if key == base {
        BelowOfPlain(base, offset);
      } else {
        JoinOfSplit(key[|base|..]);
        OnlyTheMarker(Rel(key, base));
        assert false;
      }
    }
  }

  lemma OnlyTheMarker(q: Path)
    ensures Has(Layout(Dir(map[])), q) ==> q == [""]
  {
    assert Layout(Dir(map[])) == Folder(map["" := File(EMPTY_DIR)]);
    if Has(Layout(Dir(map[])), q) {
      assert At(File(EMPTY_DIR), q[1..]).Parsed?;
      assert q == [q[0]] + q[1..];
    }
  }
}
