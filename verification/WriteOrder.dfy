/** Go visits the maps of a tree in no particular order. When the store that PutMap leaves depends on
    it, and when it does not. */
module WriteOrder {
  import opened Strings
  import opened GoPath
  import opened Trees
  import opened KeyTrees
  import opened Decoder
  import opened Writes
  import opened Consul
  import opened Slashes
  import opened Overlaps

  // ---------------------------------------------------------------- any batch of puts

  /** No key is put with two entries. */
  ghost predicate OneEntryEach(w: set<Pair>) {
    forall p, q | p in w && q in w && p.key == q.key :: p == q
  }

  /** All complete writes of the pairs, in whatever order, end in one store. */
  ghost predicate Determined(before: Entries, w: set<Pair>) {
    forall after, after' | Written(before, after, w, true) && Written(before, after', w, true) :: after == after'
  }

  lemma WrittenAgain(before: Entries, after: Entries, all: set<Pair>, w: Pair)
    requires Written(before, after, all, true) && w in all
    ensures Written(before, after[w.key := w.e], all, true)
  {
    assert Pair(w.key, w.e) == w;
    assert Puts(all, w.key);
  }

  lemma {:induction false} SomeWriting(before: Entries, w: set<Pair>) returns (after: Entries)
    ensures Written(before, after, w, true)
    decreases |w|
  {
    if w == {} {
      after := before;
    } else {
      var p :| p in w;
      var others := SomeWriting(before, w - {p});
      after := others[p.key := p.e];
      assert Written(others, after, {p}, true) by {
        assert p in {p};
        assert forall e, key | Pair(key, e) in {p} :: key == p.key;
      }
      WrittenThen(before, others, after, w - {p}, {p}, true);
      assert (w - {p}) + {p} == w;
    }
  }

  lemma SameStore(before: Entries, after: Entries, after': Entries, w: set<Pair>)
    requires OneEntryEach(w) && Written(before, after, w, true) && Written(before, after', w, true)
    ensures after == after'
  {
    forall key ensures SameAt(after, after', key) {
      if Puts(w, key) {
        assert Pair(key, after[key]) in w && Pair(key, after'[key]) in w;
      } else {
        assert SameAt(before, after, key) && SameAt(before, after', key);
      }
    }
    assert forall key | key in after :: SameAt(after, after', key);
    assert after.Keys == after'.Keys;
  }

  lemma TwoStores(before: Entries, w: set<Pair>, p: Pair, q: Pair)
    requires p in w && q in w && p.key == q.key && p != q
    ensures !Determined(before, w)
  {
    var after := SomeWriting(before, w);
    WrittenAgain(before, after, w, p);
    WrittenAgain(before, after, w, q);
    assert after[p.key := p.e][p.key] != after[q.key := q.e][p.key];
  }

  /** The order does not matter exactly if no key is put with two entries. */
  lemma DeterminedExactly(before: Entries, w: set<Pair>)
    ensures Determined(before, w) <==> OneEntryEach(w)
  {
    if OneEntryEach(w) {
      forall after, after' | Written(before, after, w, true) && Written(before, after', w, true)
        ensures after == after'
      {
        SameStore(before, after, after', w);
      }
    } else {
      var p, q :| p in w && q in w && p.key == q.key && p != q;
      TwoStores(before, w, p, q);
    }
  }

  // ---------------------------------------------------------------- by leaves

  /** No leaf is at or below the path of another one's slice. */
  ghost predicate NoneAtSlices(ls: set<Leaf>) {
    forall l, l' | l in ls && l' in ls && l != l' && l.t.List? :: !(l.path <= l'.path)
  }

  /** No two different scalars are at one path. */
  ghost predicate OneScalarEach(ls: set<Leaf>) {
    forall l, l' | l in ls && l' in ls && l.t.Scalar? && l'.t.Scalar? && l.path == l'.path :: l == l'
  }

  /** Two leaves put at the same key only if they are two scalars at one path. */
  lemma SameEntryPath(ls: set<Leaf>, k: Path, l: Leaf, e: Entry, l': Leaf, e': Entry)
    requires NoneAtSlices(ls) && l in ls && l' in ls && GoodLeaf(l) && GoodLeaf(l') && l != l'
    requires EntryOf(k, e, l) && EntryOf(k, e', l')
    ensures l.t.Scalar? && l'.t.Scalar? && l.path == l'.path
  {
    if l.t.List? {
      NotBelowSlice(k, l, l', e');
    } else if l'.t.List? {
      NotBelowSlice(k, l', l, e);
    } else if l.t.Dir? {
      NoMarker(l', l.path);
      LastOff(l.path, l'.path);
    } else {
      NoMarker(l, l'.path);
    }
  }

  lemma LastOff(p: Path, q: Path)
    ensures p + [""] == q + [""] ==> p == q
  {
    assert (p + [""])[..|p|] == p && (q + [""])[..|q|] == q;
  }

  lemma NotBelowSlice(k: Path, l: Leaf, l': Leaf, e': Entry)
    requires l.t.List? && l.path <= k && |l.path| < |k| && EntryOf(k, e', l')
    ensures l.path <= l'.path || (l'.t.List? && l'.path <= l.path)
  {
    if l'.t.Dir? {
      PrefixOfShorter(l.path, k, l'.path);
      assert k[..|k| - 1] == l'.path;
    } else if l'.t.List? {
      if |l.path| <= |l'.path| {
        PrefixesOfSame(l.path, l'.path, k);
      } else {
        PrefixesOfSame(l'.path, l.path, k);
      }
    }
  }

  lemma OneEntryInTree(w: Pair, w': Pair, base: string, kt: KeyTree)
    requires InTree(w, base, kt) && InTree(w', base, kt) && w.key == w'.key
    ensures w == w'
  {
  }

  /** One leaf alone puts no key with two entries. */
  lemma LeafIsOneEntryEach(base: string, l: Leaf, w: Pair, w': Pair)
    requires CleanBase(base) && GoodLeaf(l) && SlashValid(l.t)
    requires OfLeaf(w, base, l) && OfLeaf(w', base, l) && w.key == w'.key
    ensures w == w'
  {
    if l.t.List? {
      var prefix, items := base + Join(l.path), Expand(l.t).items;
      LeafPrefix(base, l);
      ExpandPutsTheSame(prefix, l.t, w);
      ExpandPutsTheSame(prefix, l.t, w');
      ExpandIsValid(l.t);
      PutPairsOfList(prefix, items, w);
      PutPairsOfList(prefix, items, w');
      OneEntryInTree(w, w', WithSlash(prefix), Layout(List(items)));
    }
  }

  lemma LeavesPutOnce(base: string, ls: set<Leaf>, l: Leaf, l': Leaf, w: Pair, w': Pair)
    requires CleanBase(base) && NoneAtSlices(ls) && OneScalarEach(ls) && l in ls && l' in ls
    requires GoodLeaf(l) && SlashValid(l.t) && GoodLeaf(l')
    requires OfLeaf(w, base, l) && OfLeaf(w', base, l') && w.key == w'.key
    ensures w == w'
  {
    if l != l' {
      var k := EntryPath(base, l, w);
      var k' := EntryPath(base, l', w');
      SameEntryPath(ls, k, l, w.e, l', w'.e);
    }
    LeafIsOneEntryEach(base, l, w, w');
  }

  /** Different scalars have different entries. */
  lemma ScalarEntriesDiffer(v: Value, v': Value)
    requires Storable(v) && Storable(v') && v != v'
    ensures TypedEntry(v) != TypedEntry(v')
  {
    ScalarRoundTrip(v);
    ScalarRoundTrip(v');
  }

  lemma ScalarIsPut(prefix: string, m: map<string, Tree>, l: Leaf)
    requires CleanBase(WithSlash(prefix)) && KeysValid(Dir(m)) && m != map[] && l in Leaves(Dir(m)) && l.t.Scalar?
    ensures Pair(WithSlash(prefix) + Join(l.path), TypedEntry(l.t.v)) in PutPairs(prefix, Dir(m)) && Storable(l.t.v)
  {
    var w := Pair(WithSlash(prefix) + Join(l.path), TypedEntry(l.t.v));
    LeavesPut(prefix, m, w);
    LeafPathIsValid(Dir(m), l);
    assert PutAtLeaf(w, WithSlash(prefix), Leaves(Dir(m)));
  }

  lemma OneEntryIsOneScalar(prefix: string, m: map<string, Tree>)
    requires CleanBase(WithSlash(prefix)) && KeysValid(Dir(m)) && m != map[] && OneEntryEach(PutPairs(prefix, Dir(m)))
    ensures OneScalarEach(Leaves(Dir(m)))
  {
    forall l, l' | l in Leaves(Dir(m)) && l' in Leaves(Dir(m)) && l.t.Scalar? && l'.t.Scalar? && l.path == l'.path
      ensures l == l'
    {
      ScalarIsPut(prefix, m, l);
      ScalarIsPut(prefix, m, l');
      if l.t.v != l'.t.v {
        ScalarEntriesDiffer(l.t.v, l'.t.v);
      }
    }
  }

  lemma PutByLeaf(prefix: string, m: map<string, Tree>, w: Pair) returns (l: Leaf)
    requires CleanBase(WithSlash(prefix)) && KeysValid(Dir(m)) && m != map[] && w in PutPairs(prefix, Dir(m))
    ensures l in Leaves(Dir(m)) && OfLeaf(w, WithSlash(prefix), l)
  {
    LeavesPut(prefix, m, w);
    l :| l in Leaves(Dir(m)) && w in PutPairs(WithSlash(prefix) + Join(l.path), l.t);
  }

  lemma OneScalarIsOneEntry(prefix: string, m: map<string, Tree>)
    requires CleanBase(WithSlash(prefix)) && KeysValid(Dir(m)) && m != map[] && OneScalarEach(Leaves(Dir(m)))
    requires NoneAtSlices(Leaves(Dir(m))) && forall l | l in Leaves(Dir(m)) :: SlashValid(l.t)
    ensures OneEntryEach(PutPairs(prefix, Dir(m)))
  {
    var base, ls := WithSlash(prefix), Leaves(Dir(m));
    LeavesAreGood(m);
    var all := PutPairs(prefix, Dir(m));
    forall w, w' | w in all && w' in all && w.key == w'.key ensures w == w' {
      var l := PutByLeaf(prefix, m, w);
      var l' := PutByLeaf(prefix, m, w');
      LeavesPutOnce(base, ls, l, l', w, w');
    }
  }

  /** Whatever the store was before: all complete writes of a tree end in one store if and only if no
      two different scalars of it are at one path. */
  lemma TreeIsDeterminedExactly(prefix: string, m: map<string, Tree>, before: Entries)
    requires CleanBase(WithSlash(prefix)) && KeysValid(Dir(m)) && m != map[]
    requires NoneAtSlices(Leaves(Dir(m))) && forall l | l in Leaves(Dir(m)) :: SlashValid(l.t)
    ensures Determined(before, PutPairs(prefix, Dir(m))) <==> OneScalarEach(Leaves(Dir(m)))
  {
    DeterminedExactly(before, PutPairs(prefix, Dir(m)));
    if OneScalarEach(Leaves(Dir(m))) {
      OneScalarIsOneEntry(prefix, m);
    } else if OneEntryEach(PutPairs(prefix, Dir(m))) {
      OneEntryIsOneScalar(prefix, m);
    }
  }

  /** In particular the store does not depend on the order for trees of which no leaf is above another. */
  lemma StoreIsDetermined(prefix: string, m: map<string, Tree>, before: Entries, after: Entries, after': Entries)
    requires CleanBase(WithSlash(prefix)) && SlashValid(Dir(m))
    requires Written(before, after, PutPairs(prefix, Dir(m)), true)
    requires Written(before, after', PutPairs(prefix, Dir(m)), true)
    ensures after == after'
  {
    if m == map[] {
      SameStore(before, after, after', PutPairs(prefix, Dir(m)));
    } else {
      forall l | l in Leaves(Dir(m)) ensures SlashValid(l.t) {
        LeafIsSlashValid(Dir(m), l);
      }
      TreeIsDeterminedExactly(prefix, m, before);
    }
  }

  /** Two different scalars at one path: from every complete write there is another one with a
      different store, since whichever of them is put last is there. */
  lemma SamePathIsNotDetermined(prefix: string, m: map<string, Tree>, before: Entries, after: Entries, p: Leaf, q: Leaf)
    requires CleanBase(WithSlash(prefix)) && KeysValid(Dir(m)) && m != map[]
    requires Written(before, after, PutPairs(prefix, Dir(m)), true)
    requires p in Leaves(Dir(m)) && q in Leaves(Dir(m)) && p != q && p.path == q.path && p.t.Scalar? && q.t.Scalar?
    ensures var key := WithSlash(prefix) + Join(p.path);
      var last, last' := after[key := TypedEntry(p.t.v)], after[key := TypedEntry(q.t.v)];
      && Written(before, last, PutPairs(prefix, Dir(m)), true)
      && Written(before, last', PutPairs(prefix, Dir(m)), true)
      && last != last'
  {
    var key := WithSlash(prefix) + Join(p.path);
    ScalarIsPut(prefix, m, p);
    ScalarIsPut(prefix, m, q);
    ScalarEntriesDiffer(p.t.v, q.t.v);
    WrittenAgain(before, after, PutPairs(prefix, Dir(m)), Pair(key, TypedEntry(p.t.v)));
    WrittenAgain(before, after, PutPairs(prefix, Dir(m)), Pair(key, TypedEntry(q.t.v)));
    assert after[key := TypedEntry(p.t.v)][key] != after[key := TypedEntry(q.t.v)][key];
  }
}
