/** The pairs that PutMap, putSlice and PutTyped put into the store, and that for a valid tree
    they are its layout. */
module Writes {
  import opened Strings
  import opened Decimal
  import opened GoPath
  import opened Trees
  import opened KeyTrees
  import opened Decoder
  import opened Listings

  /** The pairs put for a value below prefix: PutMap, putSlice and PutTyped by kind of value. */
  function PutPairs(prefix: string, t: Tree): set<Pair>
    decreases t
  {
    var base := WithSlash(prefix);
    match t
    case Scalar(v) => {Pair(prefix, TypedEntry(v))}
    case Dir(m) =>
      if m == map[] then {Pair(base, EMPTY_DIR)}
      else set k, w | k in m && w in PutPairs(JoinPath(base, k), m[k]) :: w
    case List(items) =>
      {Pair(base, SLICE_MARK)} +
      set i, w | 0 <= i < |items| && w in PutPairs(JoinPath(base, Index(i)), items[i]) :: w
  }

  /** w is the entry that kt has at its key below base. */
  predicate InTree(w: Pair, base: string, kt: KeyTree) {
    base <= w.key && At(kt, Rel(w.key, base)) == Parsed(w.e)
  }

  /** The same for a child with the key name: an entry at the key, or a subtree below it. */
  predicate InChild(w: Pair, name: string, kt: KeyTree) {
    if kt.File? then w == Pair(name, kt.e) else InTree(w, name + "/", kt)
  }

  // ---------------------------------------------------------------- one level

  lemma RelOfChild(base: string, k: string, key: string)
    requires '/' !in k && base <= key
    ensures base + k + "/" <= key ==> Rel(key, base) == [k] + Rel(key, base + k + "/")
    ensures Rel(key, base)[0] == k && |Rel(key, base)| > 1 ==> base + k + "/" <= key
    ensures Rel(key, base) == [k] <==> key == base + k
  {
    var rest := key[|base|..];
    var q := Rel(key, base);
    assert key == base + rest;
    JoinOfSplit(rest);
    if base + k + "/" <= key {
      assert key == base + k + "/" + key[|base + k + "/"|..];
      assert rest == k + "/" + key[|base + k + "/"|..];
      SplitAtFirstSlash(k, key[|base + k + "/"|..]);
    }
    if q[0] == k && |q| > 1 {
      assert rest == k + "/" + Join(q[1..]);
      assert key == (base + k + "/") + Join(q[1..]);
    }
    SplitAtFirstSlash(k, "");
  }

  lemma InChildMeansAt(w: Pair, base: string, k: string, c: KeyTree)
    requires '/' !in k && base <= w.key
    ensures InChild(w, base + k, c) <==>
      Rel(w.key, base)[0] == k && At(c, Rel(w.key, base)[1..]) == Parsed(w.e)
  {
    var q := Rel(w.key, base);
    RelOfChild(base, k, w.key);
    assert q == [q[0]] + q[1..];
    if c.File? {
      assert At(c, q[1..]).Parsed? <==> q[1..] == [];
    } else {
      assert At(c, []).Failed?;
      if |q| > 1 && q[0] == k {
        assert q[1..] == Rel(w.key, base + k + "/");
      }
    }
  }

  lemma ChildInFolder(w: Pair, base: string, kt: KeyTree, k: string)
    requires kt.Folder? && k in kt.m && '/' !in k && InChild(w, base + k, kt.m[k])
    ensures InTree(w, base, kt)
  {
    assert base <= base + k <= w.key;
    InChildMeansAt(w, base, k, kt.m[k]);
  }

  lemma InFolder(w: Pair, base: string, kt: KeyTree)
    requires kt.Folder? && forall k | k in kt.m :: '/' !in k
    ensures InTree(w, base, kt) <==> exists k | k in kt.m :: InChild(w, base + k, kt.m[k])
  {
    if InTree(w, base, kt) {
      var k := Rel(w.key, base)[0];
      InChildMeansAt(w, base, k, kt.m[k]);
      assert InChild(w, base + k, kt.m[k]);
    }
    if k :| k in kt.m && InChild(w, base + k, kt.m[k]) {
      ChildInFolder(w, base, kt, k);
    }
  }

  lemma InListing(w: Pair, base: string, kt: KeyTree)
    requires kt.Listing?
    ensures InTree(w, base, kt) <==>
      w == Pair(base, SLICE_MARK) || exists i | 0 <= i < |kt.items| :: InChild(w, base + Index(i), kt.items[i])
  {
    if base <= w.key {
      RelOfChild(base, "", w.key);
      assert base + "" == base;
    }
    if InTree(w, base, kt) && Rel(w.key, base) != [""] {
      var i := IndexOf(Rel(w.key, base)[0], |kt.items|).value;
      InChildMeansAt(w, base, Index(i), kt.items[i]);
      assert InChild(w, base + Index(i), kt.items[i]);
    }
    if i :| 0 <= i < |kt.items| && InChild(w, base + Index(i), kt.items[i]) {
      assert base <= base + Index(i) <= w.key;
      InChildMeansAt(w, base, Index(i), kt.items[i]);
      IndexOfIndex(i, |kt.items|);
    }
  }

  // ---------------------------------------------------------------- all levels

  lemma IndexIsComponent(i: nat)
    ensures ValidComponent(Index(i))
  {
    assert IsDigit(Index(i)[0]);
  }

  ghost predicate PutsAtKey(w: Pair, base: string, m: map<string, Tree>) {
    exists k :: k in m && w in PutPairs(JoinPath(base, k), m[k])
  }

  ghost predicate PutsAtIndex(w: Pair, base: string, items: seq<Tree>) {
    exists i :: 0 <= i < |items| && w in PutPairs(JoinPath(base, Index(i)), items[i])
  }

  lemma DirPuts(prefix: string, m: map<string, Tree>, w: Pair)
    requires m != map[]
    ensures w in PutPairs(prefix, Dir(m)) <==> PutsAtKey(w, WithSlash(prefix), m)
  {
  }

  lemma ListPuts(prefix: string, items: seq<Tree>, w: Pair)
    ensures w in PutPairs(prefix, List(items)) <==>
      w == Pair(WithSlash(prefix), SLICE_MARK) || PutsAtIndex(w, WithSlash(prefix), items)
  {
  }

  ghost predicate InSomeChild(w: Pair, base: string, m: map<string, KeyTree>) {
    exists k :: k in m && InChild(w, base + k, m[k])
  }

  lemma LayoutOfDir(m: map<string, Tree>)
    requires m != map[]
    ensures Layout(Dir(m)).Folder? && Layout(Dir(m)).m.Keys == m.Keys
    ensures forall k | k in m :: Layout(Dir(m)).m[k] == Layout(m[k])
  {
  }

  /** Below a clean prefix the pairs put for a valid tree are the entries of its layout. */
  lemma {:induction false} PutPairsOfDir(prefix: string, m: map<string, Tree>, w: Pair)
    requires CleanBase(WithSlash(prefix)) && Valid(Dir(m))
    ensures w in PutPairs(prefix, Dir(m)) <==> InTree(w, WithSlash(prefix), Layout(Dir(m)))
    decreases Dir(m), 0
  {
    if m == map[] {
      PutPairsOfEmpty(prefix, w);
    } else {
      var base, kt := WithSlash(prefix), Layout(Dir(m));
      LayoutOfDir(m);
      forall k | k in m
        ensures JoinPath(base, k) == base + k
        ensures w in PutPairs(base + k, m[k]) <==> InChild(w, base + k, kt.m[k])
      {
        ComponentIsKey(k);
        JoinPathAppends(base, k);
        PutPairsOfChild(base, k, m[k], w);
      }
      PutsOfChildren(base, m, kt.m, w);
      DirPuts(prefix, m, w);
      InDirLayout(w, base, m);
    }
  }

  lemma PutPairsOfEmpty(prefix: string, w: Pair)
    ensures w in PutPairs(prefix, Dir(map[])) <==> InTree(w, WithSlash(prefix), Layout(Dir(map[])))
  {
    var base := WithSlash(prefix);
    InFolder(w, base, Layout(Dir(map[])));
    assert base + "" == base;
  }

  /** What is put for the children, by their layouts. */
  lemma PutsOfChildren(base: string, m: map<string, Tree>, kts: map<string, KeyTree>, w: Pair)
    requires kts.Keys == m.Keys
    requires forall k | k in m ::
      JoinPath(base, k) == base + k && (w in PutPairs(base + k, m[k]) <==> InChild(w, base + k, kts[k]))
    ensures PutsAtKey(w, base, m) <==> InSomeChild(w, base, kts)
  {
    if PutsAtKey(w, base, m) {
      var k :| k in m && w in PutPairs(JoinPath(base, k), m[k]);
      assert k in kts && InChild(w, base + k, kts[k]);
    }
    if InSomeChild(w, base, kts) {
      var k :| k in kts && InChild(w, base + k, kts[k]);
      assert k in m && w in PutPairs(JoinPath(base, k), m[k]);
    }
  }

  lemma InDirLayout(w: Pair, base: string, m: map<string, Tree>)
    requires Valid(Dir(m)) && m != map[]
    ensures Layout(Dir(m)).Folder?
    ensures InTree(w, base, Layout(Dir(m))) <==> InSomeChild(w, base, Layout(Dir(m)).m)
  {
    LayoutOfDir(m);
    var kt := Layout(Dir(m));
    forall k | k in kt.m ensures '/' !in k {
      assert ValidComponent(k);
    }
    InFolder(w, base, kt);
  }

  lemma {:induction false} PutPairsOfChild(base: string, k: string, t: Tree, w: Pair)
    requires CleanBase(base) && ValidComponent(k) && Valid(t)
    ensures w in PutPairs(base + k, t) <==> InChild(w, base + k, Layout(t))
    decreases t, 1
  {
    ComponentIsKey(k);
    CleanBaseBelow(base, k);
    match t
    case Scalar(_) =>
    case Dir(m) => PutPairsOfDir(base + k, m, w);
    case List(items) => PutPairsOfList(base + k, items, w);
  }

  lemma {:induction false} PutPairsOfList(prefix: string, items: seq<Tree>, w: Pair)
    requires CleanBase(WithSlash(prefix)) && Valid(List(items))
    ensures w in PutPairs(prefix, List(items)) <==> InTree(w, WithSlash(prefix), Layout(List(items)))
    decreases List(items), 0
  {
    var sub := WithSlash(prefix);
    forall i: nat | i < |items|
      ensures JoinPath(sub, Index(i)) == sub + Index(i)
      ensures w in PutPairs(sub + Index(i), items[i]) <==> InChild(w, sub + Index(i), LayoutElement(items[i]))
    {
      IndexIsComponent(i);
      ComponentIsKey(Index(i));
      JoinPathAppends(sub, Index(i));
      PutPairsOfElement(sub, i, items[i], w);
    }
    ListPuts(prefix, items, w);
    ElementPuts(sub, items, w);
  }

  lemma ElementPuts(sub: string, items: seq<Tree>, w: Pair)
    requires forall i: nat | i < |items| ::
      JoinPath(sub, Index(i)) == sub + Index(i) && (w in PutPairs(sub + Index(i), items[i]) <==>
          InChild(w, sub + Index(i), LayoutElement(items[i])))
    ensures w == Pair(sub, SLICE_MARK) || PutsAtIndex(w, sub, items) <==> InTree(w, sub, Layout(List(items)))
  {
    InListing(w, sub, Layout(List(items)));
  }

  lemma {:induction false} PutPairsOfElement(base: string, i: nat, t: Tree, w: Pair)
    requires CleanBase(base) && Valid(t)
    ensures w in PutPairs(base + Index(i), t) <==> InChild(w, base + Index(i), LayoutElement(t))
    decreases t, 2
  {
    IndexIsComponent(i);
    match t
    case List(inner) => PutPairsOfNestedSlice(base, i, inner, w);
    case _ => PutPairsOfChild(base, Index(i), t, w);
  }

  lemma {:induction false} PutPairsOfNestedSlice(base: string, i: nat, inner: seq<Tree>, w: Pair)
    requires CleanBase(base) && Valid(List(inner))
    ensures w in PutPairs(base + Index(i), List(inner)) <==> InChild(w, base + Index(i), LayoutElement(List(inner)))
    decreases List(inner), 1
  {
    IndexIsComponent(i);
    ComponentIsKey(Index(i));
    CleanBaseBelow(base, Index(i));
    var sub := base + Index(i) + "/";
    forall j: nat | j < |inner|
      ensures JoinPath(sub, Index(j)) == sub + Index(j)
      ensures w in PutPairs(sub + Index(j), inner[j]) <==> InChild(w, sub + Index(j), Layout(inner[j]))
    {
      IndexIsComponent(j);
      ComponentIsKey(Index(j));
      JoinPathAppends(sub, Index(j));
      PutPairsOfChild(sub, Index(j), inner[j], w);
    }
    ListPuts(base + Index(i), inner, w);
    NestedPuts(sub, inner, w);
  }

  lemma NestedPuts(sub: string, inner: seq<Tree>, w: Pair)
    requires forall j: nat | j < |inner| ::
      JoinPath(sub, Index(j)) == sub + Index(j) && (w in PutPairs(sub + Index(j), inner[j]) <==>
          InChild(w, sub + Index(j), Layout(inner[j])))
    ensures w == Pair(sub, SLICE_MARK) || PutsAtIndex(w, sub, inner) <==> InTree(w, sub, LayoutElement(List(inner)))
  {
    NestedSlice(inner);
    InMarkedFolder(w, sub, LayoutElement(List(inner)), |inner|);
  }

  /** The folder that a slice directly in a slice is laid out as. */
  predicate MarkedFolder(kt: KeyTree, n: nat) {
    && kt.Folder? && "" in kt.m && kt.m[""] == File(SLICE_MARK)
    && (forall j: nat | j < n :: Index(j) in kt.m)
    && forall k | k in kt.m && k != "" :: exists j: nat :: j < n && k == Index(j)
  }

  lemma InMarkedFolder(w: Pair, sub: string, kt: KeyTree, n: nat)
    requires MarkedFolder(kt, n)
    ensures InTree(w, sub, kt) <==>
      w == Pair(sub, SLICE_MARK) || exists j: nat :: j < n && InChild(w, sub + Index(j), kt.m[Index(j)])
  {
    assert sub + "" == sub;
    forall k | k in kt.m ensures '/' !in k {
      if k != "" {
        var j: nat :| j < n && k == Index(j);
      }
    }
    InFolder(w, sub, kt);
    if k :| k in kt.m && InChild(w, sub + k, kt.m[k]) {
      if k != "" {
        var j: nat :| j < n && k == Index(j);
      }
    }
    if w == Pair(sub, SLICE_MARK) {
      assert InChild(w, sub + "", kt.m[""]);
    }
  }
}
