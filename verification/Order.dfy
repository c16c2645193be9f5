/** The order of a Consul listing and what it means for slices: markers come before elements and,
    up to 10000 of them, elements come in numeric order. */
module Order {
  import opened Strings
  import opened Decimal
  import opened KeyTrees
  import opened Progress

  /** d holds the paths of the subtree that are listed before q. */
  ghost predicate ListedBefore(kt: KeyTree, d: set<Path>, q: Path) {
    && (forall p | p in d :: Has(kt, p))
    && forall p | Has(kt, p) :: p in d <==> Less(Join(p), Join(q))
  }

  /** The order of two paths is that of what follows a common first component. */
  lemma ListedBeforeBelow(kt: KeyTree, d: set<Path>, q: Path, c: KeyTree)
    requires q != [] && Has(kt, q) && ListedBefore(kt, d, q)
    requires c.Folder? || c.Listing?
    requires Has(c, q[1..])
    requires forall p | p != [] && p[0] == q[0] :: At(kt, p) == At(c, p[1..])
    ensures ListedBefore(c, Sub(d, q[0]), q[1..])
  {
    var k := q[0];
    forall r ensures r in Sub(d, k) ==> Has(c, r)
             ensures Has(c, r) ==> (r in Sub(d, k) <==> Less(Join(r), Join(q[1..])))
    {
      var p := [k] + r;
      SubHas(d, k, r);
      assert p[1..] == r;
      if Has(c, r) {
        assert r != [] && q[1..] != [];
        assert Join(p) == (k + "/") + Join(r);
        assert Join(q) == (k + "/") + Join(q[1..]);
        LessAfterPrefix(k + "/", Join(r), Join(q[1..]));
      }
    }
  }

  lemma JoinFromHead(k: string, r: Path) returns (tail: string)
    ensures Join([k] + r) == k + tail
  {
    if r == [] {
      tail := "";
      assert [k] + r == [k] && k + tail == k;
    } else {
      tail := "/" + Join(r);
      assert ([k] + r)[1..] == r;
      assert k + "/" + Join(r) == k + ("/" + Join(r));
    }
  }

  lemma ElementOrder(i: nat, j: nat, x: Path, y: Path)
    requires i < j < 10000
    ensures Less(Join([Index(i)] + x), Join([Index(j)] + y))
  {
    var s := JoinFromHead(Index(i), x);
    var t := JoinFromHead(Index(j), y);
    IndexOrder(i, j, s, t);
  }

  lemma ElementOrderBreaks(x: Path, y: Path)
    ensures Less(Join([Index(10000)] + x), Join([Index(1001)] + y))
  {
    var s := JoinFromHead(Index(10000), x);
    var t := JoinFromHead(Index(1001), y);
    IndexOrderBreaks(s, t);
  }

  /** In listing order every entry finds its slices marked and their earlier elements present. */
  lemma {:induction false} ListedIsMarked(kt: KeyTree, inSlice: bool, d: set<Path>, q: Path)
    requires WellFormed(kt, inSlice) && Has(kt, q) && ListedBefore(kt, d, q)
    ensures Marked(kt, d, q)
    decreases kt
  {
    match kt
    case File(_) =>
    case Folder(m) =>
      if !m[q[0]].File? {
        ListedBeforeBelow(kt, d, q, m[q[0]]);
        ListedIsMarked(m[q[0]], false, Sub(d, q[0]), q[1..]);
      }
    case Listing(items) =>
      if q != [""] {
        var c := items[IndexOf(q[0], |items|).value];
        assert Has(kt, [""]);
        assert Join(q) != "" by {
          var _ := JoinFromHead(q[0], q[1..]);
          assert [q[0]] + q[1..] == q;
        }
        if !c.File? {
          ListedBeforeBelow(kt, d, q, c);
          ListedIsMarked(c, true, Sub(d, q[0]), q[1..]);
        }
      }
  }

  lemma {:induction false} ListedIsAdmissible(kt: KeyTree, inSlice: bool, d: set<Path>, q: Path)
    requires WellFormed(kt, inSlice) && FitsIndex(kt) && Has(kt, q) && ListedBefore(kt, d, q)
    ensures Admissible(kt, d, q)
    decreases kt, 1
  {
    match kt
    case File(_) =>
    case Folder(m) =>
      if !m[q[0]].File? {
        ListedBeforeBelow(kt, d, q, m[q[0]]);
        ListedIsAdmissible(m[q[0]], false, Sub(d, q[0]), q[1..]);
      }
    case Listing(items) =>
      if q != [""] {
        var i := IndexOf(q[0], |items|).value;
        EarlierElementsSeen(kt, d, q, i);
        ListedElementIsAdmissible(kt, d, q, i);
      }
  }

  lemma {:induction false} ListedElementIsAdmissible(kt: KeyTree, d: set<Path>, q: Path, i: nat)
    requires kt.Listing? && WellFormed(kt, false) && FitsIndex(kt) && Has(kt, q) && ListedBefore(kt, d, q)
    requires q != [""] && IndexOf(q[0], |kt.items|) == Parsed(i)
    ensures Has(kt.items[i], q[1..]) && Admissible(kt.items[i], Sub(d, q[0]), q[1..])
    decreases kt, 0
  {
    var c := kt.items[i];
    assert At(kt, q) == At(c, q[1..]);
    if !c.File? {
      ListedBeforeBelow(kt, d, q, c);
      ListedIsAdmissible(c, true, Sub(d, q[0]), q[1..]);
    }
  }

  lemma ElementHas(kt: KeyTree, i: nat, r: Path)
    requires kt.Listing? && i < |kt.items| && Has(kt.items[i], r)
    ensures Has(kt, [Index(i)] + r) && [Index(i)] + r != [""]
  {
    var q := [Index(i)] + r;
    assert q[0] == Index(i) && q[1..] == r;
    IndexOfIndex(i, |kt.items|);
  }

  lemma EarlierElementsSeen(kt: KeyTree, d: set<Path>, q: Path, i: nat)
    requires kt.Listing? && WellFormed(kt, false) && |kt.items| <= 10000
    requires Has(kt, q) && ListedBefore(kt, d, q) && q != [""] && IndexOf(q[0], |kt.items|) == Parsed(i)
    ensures i <= Seen(d, 0, |kt.items|)
  {
    var j := Seen(d, 0, |kt.items|);
    if j < i {
      assert WellFormed(kt.items[j], true);
      EarlierElementSeen(kt, d, q, i, j);
    }
  }

  lemma EarlierElementSeen(kt: KeyTree, d: set<Path>, q: Path, i: nat, j: nat)
    requires kt.Listing? && |kt.items| <= 10000 && j < i < |kt.items| && WellFormed(kt.items[j], true)
    requires ListedBefore(kt, d, q) && q != [] && q[0] == Index(i)
    ensures Sub(d, Index(j)) != {}
  {
    var r := SomePath(kt.items[j], true);
    ElementHas(kt, j, r);
    assert [Index(i)] + q[1..] == q;
    ElementOrder(j, i, r, q[1..]);
    SubHas(d, Index(j), r);
  }

  /** A slice with more than 10000 elements has an entry that is listed too early: that of
      element 10000 comes before element 1001. */
  lemma {:induction false} LongSliceBlocks(kt: KeyTree, inSlice: bool) returns (q: Path)
    requires WellFormed(kt, inSlice) && !FitsIndex(kt)
    ensures Has(kt, q) && q != [""] && Blocked(kt, q)
    decreases kt
  {
    match kt
    case Folder(m) =>
      var k :| k in m && !FitsIndex(m[k]);
      var r := LongSliceBlocks(m[k], false);
      q := [k] + r;
      BlockedInFolder(kt, q);
    case Listing(items) =>
      if |items| > 10000 {
        q := LongestSliceBlocks(kt);
      } else {
        var i :| 0 <= i < |items| && !FitsIndex(items[i]);
        var r := LongSliceBlocks(items[i], true);
        q := [Index(i)] + r;
        BlockedInListing(kt, q, i);
      }
  }

  /** Whatever the listing, the entry at q comes too early in it. */
  ghost predicate Blocked(kt: KeyTree, q: Path)
    requires Has(kt, q)
  {
    forall d | ListedBefore(kt, d, q) :: !Admissible(kt, d, q)
  }

  lemma BlockedInFolder(kt: KeyTree, q: Path)
    requires kt.Folder? && q != [] && q[0] in kt.m && !kt.m[q[0]].File?
    requires Has(kt.m[q[0]], q[1..]) && Blocked(kt.m[q[0]], q[1..])
    ensures Has(kt, q) && Blocked(kt, q)
  {
    forall d | ListedBefore(kt, d, q) ensures !Admissible(kt, d, q) {
      ListedBeforeBelow(kt, d, q, kt.m[q[0]]);
    }
  }

  lemma BlockedInListing(kt: KeyTree, q: Path, i: nat)
    requires kt.Listing? && i < |kt.items| && q != [] && q[0] == Index(i) && !kt.items[i].File?
    requires Has(kt.items[i], q[1..]) && Blocked(kt.items[i], q[1..])
    ensures Has(kt, q) && Blocked(kt, q)
  {
    IndexOfIndex(i, |kt.items|);
    assert At(kt, q) == At(kt.items[i], q[1..]);
    forall d | ListedBefore(kt, d, q) ensures !Admissible(kt, d, q) {
      ListedBeforeBelow(kt, d, q, kt.items[i]);
    }
  }

  lemma LongestSliceBlocks(kt: KeyTree) returns (q: Path)
    requires kt.Listing? && WellFormed(kt, false) && |kt.items| > 10000
    ensures Has(kt, q) && q != [""] && Blocked(kt, q)
  {
    var r := SomePath(kt.items[10000], true);
    ElementHas(kt, 10000, r);
    q := [Index(10000)] + r;
    forall d | ListedBefore(kt, d, q) ensures !Admissible(kt, d, q) {
      TooEarly(kt, d, r);
    }
  }

  lemma TooEarly(kt: KeyTree, d: set<Path>, r: Path)
    requires kt.Listing? && |kt.items| > 10000 && Has(kt, [Index(10000)] + r) && ListedBefore(kt, d, [Index(10000)] + r)
    ensures !Admissible(kt, d, [Index(10000)] + r)
  {
    var q := [Index(10000)] + r;
    assert q[0] == Index(10000);
    IndexOfIndex(10000, |kt.items|);
    SeenAtMost(kt, d, r);
  }

  lemma SeenAtMost(kt: KeyTree, d: set<Path>, r: Path)
    requires kt.Listing? && |kt.items| > 10000 && ListedBefore(kt, d, [Index(10000)] + r)
    ensures Seen(d, 0, |kt.items|) < 10000
  {
    if x :| x in Sub(d, Index(1001)) {
      SubHas(d, Index(1001), x);
      ElementOrderBreaks(r, x);
      LessAsymmetric(Join([Index(10000)] + r), Join([Index(1001)] + x));
      assert false;
    }
    assert Sub(d, Index(1001)) == {};
  }
}
