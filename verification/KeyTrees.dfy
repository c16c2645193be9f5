/** The component layer between a tree and the flat store: which entries a tree occupies, one
    level of the key at a time. */
module KeyTrees {
  import opened Strings
  import opened Decimal
  import opened Trees

  /** A subtree of the key space. A folder's children are found under their name; the name "" is
      the key with a trailing slash. A listing is the folder of a slice: its marker sits at ""
      and its elements at their four digit indices. */
  datatype KeyTree =
    | File(e: Entry)
    | Folder(m: map<string, KeyTree>)
    | Listing(items: seq<KeyTree>)

  /** The keys that a tree is written to. */
  function Layout(t: Tree): KeyTree
    decreases t, 0
  {
    match t
    case Scalar(v) => File(TypedEntry(v))
    case Dir(m) => if m == map[] then Folder(map["" := File(EMPTY_DIR)]) else Folder(map k | k in m :: Layout(m[k]))
    case List(items) => Listing(seq(|items|, i requires 0 <= i < |items| => LayoutElement(items[i])))
  }

  /** A slice element goes below its index. A slice directly in a slice leaves its marker there. */
  function LayoutElement(t: Tree): KeyTree
    decreases t, 1
  {
    match t
    case List(inner) =>
      Folder(map["" := File(SLICE_MARK)] + Numbered(seq(|inner|, i requires 0 <= i < |inner| => Layout(inner[i]))))
    case _ => Layout(t)
  }

  /** The position whose index text is s. */
  function IndexOf(s: string, n: nat): (r: Parsed<nat>)
    ensures r.Parsed? ==> r.value < n && Index(r.value) == s
    ensures r.Failed? ==> forall i: nat | i < n :: Index(i) != s
  {
    if n == 0 then Failed else if Index(n - 1) == s then Parsed(n - 1) else IndexOf(s, n - 1)
  }

  lemma IndexOfIndex(i: nat, n: nat)
    requires i < n
    ensures IndexOf(Index(i), n) == Parsed(i)
  {
    IndexIsInjective();
  }

  /** The entry at a relative path, if the subtree has one there. */
  function At(kt: KeyTree, p: Path): Parsed<Entry> {
    match kt
    case File(e) => if p == [] then Parsed(e) else Failed
    case Folder(m) => if p != [] && p[0] in m then At(m[p[0]], p[1..]) else Failed
    case Listing(items) =>
      if p == [""] then Parsed(SLICE_MARK)
      else if p == [] then Failed
      else match IndexOf(p[0], |items|)
        case Parsed(i) => At(items[i], p[1..])
        case Failed => Failed
  }

  predicate Has(kt: KeyTree, p: Path) {
    At(kt, p).Parsed?
  }

  /** The key trees that layouts are made of: no folder is empty, names have no slash, names of
      entries do not end in a blank, the name "" only holds a marker, and a slice marker only where
      the folder is a slice element. */
  predicate WellFormed(kt: KeyTree, inSlice: bool) {
    match kt
    case File(e) => e.flag != SLICE_FLAG
    case Folder(m) =>
      && m != map[]
      && forall k | k in m ::
        && '/' !in k
        && (m[k].File? && k != "" ==> k[|k| - 1] != ' ')
        && if k == "" then m[k] == File(EMPTY_DIR) || (inSlice && m[k] == File(SLICE_MARK))
           else WellFormed(m[k], false)
    case Listing(items) =>
      && !inSlice
      && |items| <= MAX_INT64
      && forall i | 0 <= i < |items| :: WellFormed(items[i], true)
  }

  /** No slice has more than 10000 elements. */
  predicate FitsIndex(kt: KeyTree) {
    match kt
    case File(_) => true
    case Folder(m) => forall k | k in m :: FitsIndex(m[k])
    case Listing(items) => |items| <= 10000 && forall i | 0 <= i < |items| :: FitsIndex(items[i])
  }

  /** Every subtree has an entry; in particular every slice element writes one. */
  lemma {:induction false} SomePath(kt: KeyTree, inSlice: bool) returns (q: Path)
    requires WellFormed(kt, inSlice)
    ensures Has(kt, q)
  {
    match kt
    case File(_) => q := [];
    case Folder(m) =>
      var k :| k in m;
      var r := [];
      if k != "" {
        r := SomePath(m[k], false);
      }
      q := [k] + r;
      assert q[1..] == r;
    case Listing(_) => q := [""];
  }

  // ---------------------------------------------------------------- layouts

  /** A slice directly in a slice: its marker and its elements, by index, in an ordinary folder. */
  lemma NestedSlice(inner: seq<Tree>)
    ensures var m := LayoutElement(List(inner)).m;
      && "" in m && m[""] == File(SLICE_MARK)
      && (forall i: nat | i < |inner| :: Index(i) in m && m[Index(i)] == Layout(inner[i]))
      && forall k | k in m && k != "" :: exists i: nat :: i < |inner| && k == Index(i)
  {
    var layouts := Numbered(seq(|inner|, i requires 0 <= i < |inner| => Layout(inner[i])));
    assert LayoutElement(List(inner)).m == map["" := File(SLICE_MARK)] + layouts;
    assert "" !in layouts;
    forall i: nat | i < |inner| ensures Index(i) in layouts && layouts[Index(i)] == Layout(inner[i]) {
    }
  }

  lemma {:induction false} LayoutWellFormed(t: Tree)
    requires Valid(t)
    ensures WellFormed(Layout(t), false)
    decreases t, 0
  {
    match t
    case Scalar(_) =>
    case Dir(m) =>
      forall k | k in m ensures WellFormed(Layout(m[k]), false) {
        LayoutWellFormed(m[k]);
      }
    case List(items) =>
      forall i | 0 <= i < |items| ensures WellFormed(LayoutElement(items[i]), true) {
        LayoutElementWellFormed(items[i]);
      }
  }

  lemma {:induction false} LayoutElementWellFormed(t: Tree)
    requires Valid(t)
    ensures WellFormed(LayoutElement(t), true)
    decreases t, 1
  {
    match t
    case List(inner) =>
      forall i | 0 <= i < |inner| ensures WellFormed(Layout(inner[i]), false) {
        LayoutWellFormed(inner[i]);
      }
      var m := LayoutElement(t).m;
      NestedSlice(inner);
      forall k | k in m && k != ""
        ensures '/' !in k && k[|k| - 1] != ' ' && WellFormed(m[k], false)
      {
        var i: nat :| i < |inner| && k == Index(i);
        assert IsDigit(k[|k| - 1]);
      }
    case Dir(m) =>
      LayoutWellFormed(t);
      WellFormedAnywhere(Layout(t));
    case Scalar(_) => LayoutWellFormed(t);
  }

  lemma WellFormedAnywhere(kt: KeyTree)
    requires WellFormed(kt, false) && !kt.Listing?
    ensures WellFormed(kt, true)
  {
  }

  lemma {:induction false} LayoutFits(t: Tree)
    ensures Fits(t) <==> FitsIndex(Layout(t))
    decreases t, 0
  {
    match t
    case Scalar(_) =>
    case Dir(m) =>
      forall k | k in m ensures Fits(m[k]) <==> FitsIndex(Layout(m[k])) {
        LayoutFits(m[k]);
      }
      var l := Layout(t).m;
      if m != map[] {
        assert forall k | k in m :: l[k] == Layout(m[k]);
      }
    case List(items) =>
      var l := Layout(t).items;
      forall i | 0 <= i < |items|
        ensures FitsIndex(l[i]) <==>
          match items[i] { case List(inner) => forall j | 0 <= j < |inner| :: Fits(inner[j]) case _ => Fits(items[i]) }
      {
        LayoutElementFits(items[i]);
      }
  }

  lemma {:induction false} LayoutElementFits(t: Tree)
    ensures FitsIndex(LayoutElement(t)) <==>
      match t { case List(inner) => forall j | 0 <= j < |inner| :: Fits(inner[j]) case _ => Fits(t) }
    decreases t, 1
  {
    match t
    case List(inner) =>
      forall j | 0 <= j < |inner| ensures Fits(inner[j]) <==> FitsIndex(Layout(inner[j])) {
        LayoutFits(inner[j]);
      }
      NestedSliceFits(inner);
    case _ => LayoutFits(t);
  }

  lemma NestedSliceFits(inner: seq<Tree>)
    ensures FitsIndex(LayoutElement(List(inner))) <==> forall j | 0 <= j < |inner| :: FitsIndex(Layout(inner[j]))
  {
    var m := LayoutElement(List(inner)).m;
    NestedSlice(inner);
    assert FitsIndex(Folder(m)) <==> forall k | k in m :: FitsIndex(m[k]);
    assert FitsIndex(File(SLICE_MARK));
    if forall j | 0 <= j < |inner| :: FitsIndex(Layout(inner[j])) {
      forall k | k in m ensures FitsIndex(m[k]) {
        if k != "" {
          var i: nat :| i < |inner| && k == Index(i);
        }
      }
    } else {
      var j :| 0 <= j < |inner| && !FitsIndex(Layout(inner[j]));
      assert Index(j) in m;
    }
  }
}
