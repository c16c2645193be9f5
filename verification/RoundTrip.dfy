/** The law of the codec: what PutMap has written, ListMap loads. */
module RoundTrip {
  import opened Strings
  import opened GoPath
  import opened Trees
  import opened KeyTrees
  import opened Decoder
  import opened Listings
  import opened Writes
  import opened Consul

  /** A prefix, with or without its slash, below which path.Join appends and which ListMap leaves alone. */
  predicate GoodPrefix(prefix: string) {
    CleanBase(WithSlash(prefix)) && PlainBase(WithSlash(prefix))
  }

  lemma EntryIsInTree(base: string, kt: KeyTree, q: Path)
    requires !kt.File? && WellFormed(kt, false) && Has(kt, q)
    ensures InTree(Pair(base + Join(q), KeyTrees.At(kt, q).value), base, kt)
  {
    PathsArePlain(kt, false, q);
    SplitOfJoin(q);
    assert (base + Join(q))[|base|..] == Join(q);
  }

  lemma EntryIsListed(prefix: string, m: map<string, Tree>, before: Entries, after: Entries, q: Path)
    requires CleanBase(WithSlash(prefix)) && Valid(Dir(m))
    requires Written(before, after, PutPairs(prefix, Dir(m)), true) && Has(Layout(Dir(m)), q)
    ensures WithSlash(prefix) + Join(q) in after
  {
    var base, kt := WithSlash(prefix), Layout(Dir(m));
    var p := Pair(base + Join(q), KeyTrees.At(kt, q).value);
    LayoutWellFormed(Dir(m));
    EntryIsInTree(base, kt, q);
    PutPairsOfDir(prefix, m, p);
    assert Puts(PutPairs(prefix, Dir(m)), p.key);
  }

  lemma ListedIsEntry(prefix: string, m: map<string, Tree>, before: Entries, after: Entries, p: Pair)
    requires CleanBase(WithSlash(prefix)) && Valid(Dir(m))
    requires Written(before, after, PutPairs(prefix, Dir(m)), true) && p.key in after && after[p.key] == p.e
    ensures InTree(p, WithSlash(prefix), Layout(Dir(m))) || (p.key in before && before[p.key] == p.e)
  {
    if Puts(PutPairs(prefix, Dir(m)), p.key) {
      PutPairsOfDir(prefix, m, p);
      assert Pair(p.key, p.e) == p;
    } else {
      assert SameAt(before, after, p.key);
    }
  }

  /** What a complete PutMap has written is listed as the layout of the tree. */
  lemma WrittenIsListed(prefix: string, m: map<string, Tree>, before: Entries, after: Entries, query: string,
      pairs: seq<Pair>)
    requires GoodPrefix(prefix) && Valid(Dir(m))
    requires Written(before, after, PutPairs(prefix, Dir(m)), true)
    requires query <= WithSlash(prefix) && forall key | key in before && query <= key :: key == WithSlash(prefix)
    requires IsAnswer(pairs, after, query)
    ensures IsListing(pairs, WithSlash(prefix), Layout(Dir(m)))
  {
    var base, kt := WithSlash(prefix), Layout(Dir(m));
    forall i | 0 <= i < |pairs| ensures InTree(pairs[i], base, kt) || pairs[i].key == base {
      ListedIsEntry(prefix, m, before, after, pairs[i]);
    }
    forall q | Has(kt, q) && q != [""] ensures Listed(pairs, base + Join(q)) {
      EntryIsListed(prefix, m, before, after, q);
      assert query <= base + Join(q);
    }
  }

  /** The codec law. Under a prefix that holds nothing else (but perhaps an entry at the prefix
      itself, such as a lock), ListMap over what PutMap has written loads the reloaded tree; it
      panics exactly if a slice is too long for four digits. */
  lemma LoadAfterPut(prefix: string, m: map<string, Tree>, before: Entries, after: Entries, query: string,
      pairs: seq<Pair>)
    requires GoodPrefix(prefix) && Valid(Dir(m))
    requires Written(before, after, PutPairs(prefix, Dir(m)), true)
    requires query <= WithSlash(prefix) && forall key | key in before && query <= key :: key == WithSlash(prefix)
    requires IsAnswer(pairs, after, query)
    ensures Load(pairs, prefix) == if Fits(Dir(m)) then Loaded(Reload(m)) else Panic
  {
    WrittenIsListed(prefix, m, before, after, query, pairs);
    LoadOfLayout(m, pairs, prefix);
  }

  /** The tree itself comes back exactly if its slices fit, hold only maps, and no map holds an
      empty string. */
  lemma LoadOfValidIsIdentityExactly(prefix: string, m: map<string, Tree>, before: Entries, after: Entries,
      query: string, pairs: seq<Pair>)
    requires GoodPrefix(prefix) && Valid(Dir(m))
    requires Written(before, after, PutPairs(prefix, Dir(m)), true)
    requires query <= WithSlash(prefix) && forall key | key in before && query <= key :: key == WithSlash(prefix)
    requires IsAnswer(pairs, after, query)
    ensures Load(pairs, prefix) == Loaded(m) <==> Fits(Dir(m)) && Faithful(Dir(m))
  {
    LoadAfterPut(prefix, m, before, after, query, pairs);
    ReloadIsIdentityExactlyOnFaithful(m);
  }
}
