/** The tree half way through a listing. The invariant behind ListMap: after any part of the
    entries of a layout, taken in an admissible order, the tree under construction is exactly the
    part of the final tree that those entries stand for. */
module Progress {
  import opened Strings
  import opened Decimal
  import opened Trees
  import opened KeyTrees
  import opened Decoder

  /** The rests of the paths in d that start with k. */
  function Sub(d: set<Path>, k: string): set<Path> {
    set p | p in d && p != [] && p[0] == k :: p[1..]
  }

  lemma SubHas(d: set<Path>, k: string, r: Path)
    ensures r in Sub(d, k) <==> [k] + r in d
  {
    if r in Sub(d, k) {
      var p :| p in d && p != [] && p[0] == k && p[1..] == r;
      assert p == [k] + r;
    }
    if [k] + r in d {
      assert ([k] + r)[1..] == r;
    }
  }

  lemma SubAdd(d: set<Path>, q: Path, k: string)
    requires q != []
    ensures Sub(d + {q}, k) == if q[0] == k then Sub(d, k) + {q[1..]} else Sub(d, k)
  {
    forall r ensures r in Sub(d + {q}, k) <==> r in (if q[0] == k then Sub(d, k) + {q[1..]} else Sub(d, k)) {
      SubHas(d + {q}, k, r);
      SubHas(d, k, r);
      assert [k] + r == q <==> q[0] == k && q[1..] == r;
    }
  }

  /** How many elements, from the i-th on without a gap, have been seen. */
  function Seen(d: set<Path>, i: nat, n: nat): (r: nat)
    ensures i <= n ==> i <= r <= n
    ensures forall j: nat | i <= j < r :: Sub(d, Index(j)) != {}
    ensures r < n ==> Sub(d, Index(r)) == {}
    decreases n - i
  {
    if i < n && Sub(d, Index(i)) != {} then Seen(d, i + 1, n) else i
  }

  /** The value of a subtree of which the entries at d have been inserted. */
  function PartValue(kt: KeyTree, d: set<Path>): (t: Tree)
    ensures kt.Folder? ==> t.Dir?
    ensures kt.Listing? ==> t.List?
    decreases kt, 0
  {
    match kt
    case File(e) => Decode(e)
    case Folder(m) => Dir(map k | k in m && Shown(m[k], Sub(d, k)) :: PartValue(m[k], Sub(d, k)))
    case Listing(items) =>
      List(seq(Seen(d, 0, |items|), i requires 0 <= i < |items| => Dir(PartElement(items[i], Sub(d, Index(i))))))
  }

  function PartElement(kt: KeyTree, d: set<Path>): map<string, Tree>
    decreases kt, 1
  {
    if kt.Folder? then PartValue(kt, d).m else map[]
  }

  predicate Shown(kt: KeyTree, d: set<Path>) {
    d != {} && (kt.File? ==> Decode(kt.e) != EMPTY_STRING)
  }

  /** d only holds entries of the subtree, slice markers come first and elements without gaps. */
  predicate Reached(kt: KeyTree, d: set<Path>) {
    match kt
    case File(_) => d <= {[]}
    case Folder(m) =>
      && (forall p | p in d :: p != [] && p[0] in m)
      && forall k | k in m :: Reached(m[k], Sub(d, k))
    case Listing(items) =>
      && (d != {} ==> [""] in d)
      && (forall p | p in d && p != [""] :: p != [] && IndexOf(p[0], |items|).Parsed?)
      && (forall i | 0 <= i < |items| :: Reached(items[i], Sub(d, Index(i))))
      && forall i | Seen(d, 0, |items|) <= i < |items| :: Sub(d, Index(i)) == {}
  }

  /** The slice markers above q have been inserted. */
  predicate Marked(kt: KeyTree, d: set<Path>, q: Path)
    requires Has(kt, q)
  {
    match kt
    case File(_) => true
    case Folder(m) => Marked(m[q[0]], Sub(d, q[0]), q[1..])
    case Listing(items) => q == [""] || ([""] in d && Marked(items[IndexOf(q[0], |items|).value], Sub(d, q[0]), q[1..]))
  }

  /** q belongs to an element that is there already or that comes next, in every slice above it. */
  predicate Admissible(kt: KeyTree, d: set<Path>, q: Path)
    requires Has(kt, q)
  {
    match kt
    case File(_) => true
    case Folder(m) => Admissible(m[q[0]], Sub(d, q[0]), q[1..])
    case Listing(items) =>
      q == [""] ||
      var i := IndexOf(q[0], |items|).value;
      i <= Seen(d, 0, |items|) && Admissible(items[i], Sub(d, q[0]), q[1..])
  }

  // ---------------------------------------------------------------- one more entry

  lemma FolderPart(kt: KeyTree, d: set<Path>, k: string)
    requires kt.Folder?
    ensures k in PartValue(kt, d).m <==> k in kt.m && Shown(kt.m[k], Sub(d, k))
    ensures k in PartValue(kt, d).m ==> PartValue(kt, d).m[k] == PartValue(kt.m[k], Sub(d, k))
  {
  }

  lemma FolderUpdate(kt: KeyTree, d: set<Path>, q: Path)
    requires kt.Folder? && q != [] && q[0] in kt.m
    ensures var c, d' := kt.m[q[0]], Sub(d, q[0]) + {q[1..]};
      PartValue(kt, d + {q}).m ==
      (if Shown(c, d') then PartValue(kt, d).m[q[0] := PartValue(c, d')] else PartValue(kt, d).m)
  {
    var before, after := PartValue(kt, d).m, PartValue(kt, d + {q}).m;
    var c, d' := kt.m[q[0]], Sub(d, q[0]) + {q[1..]};
    var expected := if Shown(c, d') then before[q[0] := PartValue(c, d')] else before;
    forall k ensures k in after <==> k in expected
             ensures k in after ==> after[k] == expected[k]
    {
      FolderPart(kt, d, k);
      FolderPart(kt, d + {q}, k);
      SubAdd(d, q, k);
    }
  }

  lemma FolderReached(kt: KeyTree, d: set<Path>, q: Path)
    requires kt.Folder? && Reached(kt, d) && q != [] && q[0] in kt.m
    requires Reached(kt.m[q[0]], Sub(d, q[0]) + {q[1..]})
    ensures Reached(kt, d + {q})
  {
    forall k | k in kt.m ensures Reached(kt.m[k], Sub(d + {q}, k)) {
      SubAdd(d, q, k);
    }
  }

  lemma SeenUpdate(d: set<Path>, q: Path, n: nat, i: nat, from: nat)
    requires q != [] && q[0] == Index(i) && from <= i <= Seen(d, from, n) && i < n
    requires forall j | Seen(d, from, n) <= j < n :: Sub(d, Index(j)) == {}
    ensures Seen(d + {q}, from, n) == if i == Seen(d, from, n) then i + 1 else Seen(d, from, n)
    decreases n - from
  {
    IndexIsInjective();
    SubAdd(d, q, Index(from));
    if from < i {
      SeenUpdate(d, q, n, i, from + 1);
    } else {
      SeenUnchanged(d, q, n, i, i + 1);
    }
  }

  lemma SeenUnchanged(d: set<Path>, q: Path, n: nat, i: nat, from: nat)
    requires q != [] && q[0] == Index(i) && i < from <= n
    ensures Seen(d + {q}, from, n) == Seen(d, from, n)
    decreases n - from
  {
    IndexIsInjective();
    if from < n {
      SubAdd(d, q, Index(from));
      SeenUnchanged(d, q, n, i, from + 1);
    }
  }

  lemma ListingUpdate(kt: KeyTree, d: set<Path>, q: Path, i: nat)
    requires kt.Listing? && q != [] && q[0] == Index(i) && i < |kt.items| && i <= Seen(d, 0, |kt.items|)
    requires forall j | Seen(d, 0, |kt.items|) <= j < |kt.items| :: Sub(d, Index(j)) == {}
    ensures var before := PartValue(kt, d).items;
      var element := Dir(PartElement(kt.items[i], Sub(d, Index(i)) + {q[1..]}));
      PartValue(kt, d + {q}).items == (if i == |before| then before + [element] else before[i := element])
  {
    var before, after := PartValue(kt, d).items, PartValue(kt, d + {q}).items;
    var element := Dir(PartElement(kt.items[i], Sub(d, Index(i)) + {q[1..]}));
    SeenUpdate(d, q, |kt.items|, i, 0);
    forall j | 0 <= j < |after| ensures after[j] == if j == i then element else before[j] {
      IndexIsInjective();
      SubAdd(d, q, Index(j));
    }
  }

  lemma ListingReached(kt: KeyTree, d: set<Path>, q: Path, i: nat)
    requires kt.Listing? && Reached(kt, d) && [""] in d
    requires q != [] && q[0] == Index(i) && i < |kt.items| && i <= Seen(d, 0, |kt.items|)
    requires Reached(kt.items[i], Sub(d, Index(i)) + {q[1..]})
    ensures Reached(kt, d + {q})
  {
    IndexIsInjective();
    SeenUpdate(d, q, |kt.items|, i, 0);
    IndexOfIndex(i, |kt.items|);
    forall j | 0 <= j < |kt.items|
      ensures Reached(kt.items[j], Sub(d + {q}, Index(j)))
      ensures j >= Seen(d + {q}, 0, |kt.items|) ==> Sub(d + {q}, Index(j)) == {}
    {
      SubAdd(d, q, Index(j));
    }
  }

  // ---------------------------------------------------------------- one step

  /** What one insertion owes: the part for d and q if q is admissible, and a panic if it is not. */
  predicate Steps(kt: KeyTree, d: set<Path>, q: Path)
    requires kt.Folder? && Has(kt, q)
  {
    Insert(PartValue(kt, d).m, q, At(kt, q).value) ==
    if Admissible(kt, d, q) then Loaded(PartValue(kt, d + {q}).m) else Panic
  }

  predicate ListingSteps(kt: KeyTree, d: set<Path>, q: Path, m: map<string, Tree>, key: string)
    requires kt.Listing? && Has(kt, q) && key in m && m[key].List?
  {
    InsertElement(m, key, q, At(kt, q).value) ==
    if Admissible(kt, d, q) then Loaded(m[key := PartValue(kt, d + {q})]) else Panic
  }

  /** The invariant of ListMap: inserting the entry at q takes the part for d to the part for d
      and q, and panics exactly when q is not admissible. */
  lemma {:induction false} InsertStep(kt: KeyTree, inSlice: bool, d: set<Path>, q: Path)
    requires kt.Folder? && WellFormed(kt, inSlice) && Reached(kt, d)
    requires q !in d && Has(kt, q) && Marked(kt, d, q)
    ensures Steps(kt, d, q)
    decreases kt
  {
    var c, d1, q1 := kt.m[q[0]], Sub(d, q[0]), q[1..];
    SubHas(d, q[0], q1);
    assert [q[0]] + q1 == q;
    assert At(kt, q) == At(c, q1) && Reached(c, d1) && Marked(c, d1, q1);
    if c.File? {
      FileStep(kt, inSlice, d, q);
    } else if c.Folder? {
      InsertStep(c, false, d1, q1);
      FolderStep(kt, inSlice, d, q);
    } else if q1 == [""] {
      MarkerStep(kt, d, q);
    } else {
      ListingStep(c, d1, q1, PartValue(kt, d).m, q[0]);
      IntoListingStep(kt, inSlice, d, q);
    }
  }

  /** The invariant's side condition is kept by every admissible entry. */
  lemma {:induction false} ReachedStep(kt: KeyTree, inSlice: bool, d: set<Path>, q: Path)
    requires WellFormed(kt, inSlice) && Reached(kt, d) && Has(kt, q) && Marked(kt, d, q) && Admissible(kt, d, q)
    ensures Reached(kt, d + {q})
    decreases kt
  {
    match kt
    case File(_) =>
    case Folder(m) =>
      if m[q[0]].File? {
        assert At(kt, q) == At(m[q[0]], q[1..]);
      } else {
        ReachedStep(m[q[0]], false, Sub(d, q[0]), q[1..]);
      }
      FolderReached(kt, d, q);
    case Listing(items) =>
      if q == [""] {
        MarkerReached(kt, d);
      } else {
        var i := IndexOf(q[0], |items|).value;
        ElementBelow(kt, d, q, i);
        ReachedStep(items[i], true, Sub(d, q[0]), q[1..]);
        ListingReached(kt, d, q, i);
      }
  }

  lemma MarkerReached(kt: KeyTree, d: set<Path>)
    requires kt.Listing? && Reached(kt, d)
    ensures Reached(kt, d + {[""]})
  {
    forall i: nat ensures Sub(d + {[""]}, Index(i)) == Sub(d, Index(i)) {
      SubAdd(d, [""], Index(i));
    }
    SeenSame(d, d + {[""]}, 0, |kt.items|);
  }

  lemma {:induction false} SeenSame(d: set<Path>, d': set<Path>, i: nat, n: nat)
    requires forall i: nat :: Sub(d, Index(i)) == Sub(d', Index(i))
    ensures Seen(d, i, n) == Seen(d', i, n)
    decreases n - i
  {
    if i < n {
      SeenSame(d, d', i + 1, n);
    }
  }

  lemma FileStep(kt: KeyTree, inSlice: bool, d: set<Path>, q: Path)
    requires kt.Folder? && WellFormed(kt, inSlice) && Has(kt, q) && kt.m[q[0]].File?
    requires q[1..] !in Sub(d, q[0]) && Reached(kt.m[q[0]], Sub(d, q[0]))
    ensures Admissible(kt, d, q) && Steps(kt, d, q)
  {
    var c := kt.m[q[0]];
    assert At(kt, q) == At(c, q[1..]);
    assert Sub(d, q[0]) == {};
    assert Admissible(c, Sub(d, q[0]), q[1..]);
    FolderUpdate(kt, d, q);
  }

  lemma FolderStep(kt: KeyTree, inSlice: bool, d: set<Path>, q: Path)
    requires kt.Folder? && WellFormed(kt, inSlice) && Has(kt, q) && kt.m[q[0]].Folder?
    requires Has(kt.m[q[0]], q[1..]) && Steps(kt.m[q[0]], Sub(d, q[0]), q[1..])
    ensures Steps(kt, d, q)
  {
    var c, d1, q1 := kt.m[q[0]], Sub(d, q[0]), q[1..];
    if |q| == 2 { EntryIsNoMarker(c, q1); }
    FolderUpdate(kt, d, q);
    FolderPart(kt, d, q[0]);
    assert d1 == {} ==> PartValue(c, d1).m == map[];
    assert PartValue(c, d1).m == if q[0] in PartValue(kt, d).m then PartValue(kt, d).m[q[0]].m else map[];
  }

  lemma MarkerStep(kt: KeyTree, d: set<Path>, q: Path)
    requires kt.Folder? && Has(kt, q) && kt.m[q[0]].Listing? && q[1..] == [""]
    requires q[1..] !in Sub(d, q[0]) && Reached(kt.m[q[0]], Sub(d, q[0]))
    ensures Admissible(kt, d, q) && Steps(kt, d, q)
  {
    var c := kt.m[q[0]];
    assert Sub(d, q[0]) == {};
    MarkerFirst(c);
    FolderUpdate(kt, d, q);
    assert {} + {q[1..]} == {[""]};
  }

  lemma IntoListingStep(kt: KeyTree, inSlice: bool, d: set<Path>, q: Path)
    requires kt.Folder? && WellFormed(kt, inSlice) && Has(kt, q) && kt.m[q[0]].Listing? && q[1..] != [""]
    requires q[0] in PartValue(kt, d).m
    requires PartValue(kt, d).m[q[0]] == PartValue(kt.m[q[0]], Sub(d, q[0]))
    requires ListingSteps(kt.m[q[0]], Sub(d, q[0]), q[1..], PartValue(kt, d).m, q[0])
    ensures Steps(kt, d, q)
  {
    if |q| == 2 { EntryIsNoMarker(kt.m[q[0]], q[1..]); }
    FolderUpdate(kt, d, q);
  }

  /** The same one component further down, below the name of a slice. */
  lemma {:induction false} ListingStep(kt: KeyTree, d: set<Path>, q: Path, m: map<string, Tree>, key: string)
    requires kt.Listing? && WellFormed(kt, false) && Reached(kt, d)
    requires q !in d && Has(kt, q) && Marked(kt, d, q) && q != [""]
    requires key in m && m[key] == PartValue(kt, d)
    ensures ListingSteps(kt, d, q, m, key)
    decreases kt
  {
    var i := IndexOf(q[0], |kt.items|).value;
    var c, d1, q1 := kt.items[i], Sub(d, q[0]), q[1..];
    SubHas(d, q[0], q1);
    assert [q[0]] + q1 == q;
    ElementBelow(kt, d, q, i);
    if c.Folder? {
      InsertStep(c, true, d1, q1);
    }
    ListingStepAt(kt, d, q, i, m, key);
  }

  lemma ListingStepAt(kt: KeyTree, d: set<Path>, q: Path, i: nat, m: map<string, Tree>, key: string)
    requires kt.Listing? && Has(kt, q) && q != [""] && i < |kt.items| <= MAX_INT64 && q[0] == Index(i)
    requires key in m && m[key] == PartValue(kt, d)
    requires forall j | Seen(d, 0, |kt.items|) <= j < |kt.items| :: Sub(d, Index(j)) == {}
    requires var c, d1, q1 := kt.items[i], Sub(d, q[0]), q[1..];
      && At(kt, q) == At(c, q1) && Reached(c, d1) && q1 !in d1 && !c.Listing?
      && (Admissible(kt, d, q) <==> i <= Seen(d, 0, |kt.items|) && Admissible(c, d1, q1))
      && (c.Folder? ==> Steps(c, d1, q1))
    ensures ListingSteps(kt, d, q, m, key)
  {
    AtoiOfIndex(i);
    if i <= |m[key].items| {
      if kt.items[i].File? {
        ListingStepAtFile(kt, d, q, i, m, key);
      } else {
        ListingStepAtFolder(kt, d, q, i, m, key);
      }
    }
  }

  lemma ElementBelow(kt: KeyTree, d: set<Path>, q: Path, i: nat)
    requires kt.Listing? && WellFormed(kt, false) && Reached(kt, d)
    requires Has(kt, q) && Marked(kt, d, q) && q != [""] && IndexOf(q[0], |kt.items|) == Parsed(i)
    ensures var c, d1, q1 := kt.items[i], Sub(d, q[0]), q[1..];
      && At(kt, q) == At(c, q1) && Reached(c, d1) && Marked(c, d1, q1) && [""] in d
      && (Admissible(kt, d, q) <==> i <= Seen(d, 0, |kt.items|) && Admissible(c, d1, q1))
      && (forall j | Seen(d, 0, |kt.items|) <= j < |kt.items| :: Sub(d, Index(j)) == {})
  {
  }

  lemma ListingStepAtFile(kt: KeyTree, d: set<Path>, q: Path, i: nat, m: map<string, Tree>, key: string)
    requires kt.Listing? && q != [] && q[1..] !in Sub(d, q[0]) && i <= Seen(d, 0, |kt.items|)
    requires q[0] == Index(i) && AtoiIgnoringError(q[0]) == i && i < |kt.items|
    requires kt.items[i].File? && Has(kt.items[i], q[1..]) && Reached(kt.items[i], Sub(d, q[0]))
    requires forall j | Seen(d, 0, |kt.items|) <= j < |kt.items| :: Sub(d, Index(j)) == {}
    requires key in m && m[key] == PartValue(kt, d)
    requires Has(kt, q)
    ensures InsertElement(m, key, q, At(kt, q).value) == Loaded(m[key := PartValue(kt, d + {q})])
    ensures Admissible(kt.items[i], Sub(d, q[0]), q[1..])
  {
    assert Sub(d, Index(i)) == {};
    ListingUpdate(kt, d, q, i);
    assert PartElement(kt.items[i], Sub(d, q[0]) + {q[1..]}) == map[];
  }

  lemma ListingStepAtFolder(kt: KeyTree, d: set<Path>, q: Path, i: nat, m: map<string, Tree>, key: string)
    requires kt.Listing? && q != [] && i <= Seen(d, 0, |kt.items|)
    requires q[0] == Index(i) && AtoiIgnoringError(q[0]) == i && i < |kt.items|
    requires kt.items[i].Folder? && Has(kt.items[i], q[1..]) && Steps(kt.items[i], Sub(d, q[0]), q[1..])
    requires forall j | Seen(d, 0, |kt.items|) <= j < |kt.items| :: Sub(d, Index(j)) == {}
    requires key in m && m[key] == PartValue(kt, d)
    ensures InsertElement(m, key, q, At(kt.items[i], q[1..]).value) ==
      if Admissible(kt.items[i], Sub(d, q[0]), q[1..]) then Loaded(m[key := PartValue(kt, d + {q})]) else Panic
  {
    var c, d1 := kt.items[i], Sub(d, q[0]);
    ListingUpdate(kt, d, q, i);
    if i == |m[key].items| {
      assert d1 == {};
      assert PartElement(c, d1) == map[];
    } else {
      assert m[key].items[i] == Dir(PartElement(c, d1));
    }
  }

  /** Apart from the markers of slices no entry has the slice flag in the last place but one. */
  lemma EntryIsNoMarker(kt: KeyTree, q: Path)
    requires WellFormed(kt, false) && Has(kt, q) && !kt.File? && |q| == 1
    ensures At(kt, q).value.flag == SLICE_FLAG ==> kt.Listing? && q == [""]
  {
    var c := if kt.Folder? then kt.m[q[0]] else if q == [""] then kt else kt.items[IndexOf(q[0], |kt.items|).value];
    assert q != [""] || kt.Folder? ==> At(kt, q) == At(c, q[1..]);
  }

  lemma MarkerFirst(kt: KeyTree)
    requires kt.Listing?
    ensures PartValue(kt, {[""]}) == List([])
  {
    forall i: nat ensures Sub({[""]}, Index(i)) == {} {
      assert Index(i) != "";
    }
  }

  lemma {:induction false} NothingReached(kt: KeyTree)
    ensures Reached(kt, {})
  {
    forall k ensures Sub({}, k) == {} {
    }
    match kt
    case File(_) =>
    case Folder(m) =>
      forall k | k in m ensures Reached(m[k], {}) {
        NothingReached(m[k]);
      }
    case Listing(items) =>
      forall i | 0 <= i < |items| ensures Reached(items[i], {}) {
        NothingReached(items[i]);
      }
  }
}
