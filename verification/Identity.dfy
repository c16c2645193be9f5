/** Which trees come back from Consul exactly as they were put there. */
module Identity {
  import opened Strings
  import opened Decimal
  import opened GoPath
  import opened Trees
  import opened Decoder
  import opened Writes
  import opened Consul
  import opened RoundTrip
  import opened Slashes

  /** No key at any depth has a slash. */
  predicate SlashFree(t: Tree) {
    match t
    case Scalar(_) => true
    case Dir(m) => forall k | k in m :: '/' !in k && SlashFree(m[k])
    case List(items) => forall i | 0 <= i < |items| :: SlashFree(items[i])
  }

  lemma SlashFreeWith(m: map<string, Tree>, key: string, t: Tree)
    requires SlashFree(Dir(m)) && '/' !in key && SlashFree(t)
    ensures SlashFree(Dir(m[key := t]))
  {
  }

  lemma SlashFreeList(items: seq<Tree>, i: nat, t: Tree)
    requires SlashFree(List(items)) && SlashFree(t) && i <= |items|
    ensures i == |items| ==> SlashFree(List(items + [t]))
    ensures i < |items| ==> SlashFree(List(items[i := t]))
  {
  }

  lemma DecodedIsSlashFree(e: Entry)
    ensures SlashFree(Decode(e))
  {
  }

  /** Keys are made of components, so an entry brings no slash into a tree. */
  lemma {:induction false} InsertKeepsSlashFree(m: map<string, Tree>, keys: Path, e: Entry)
    requires keys != [] && SlashFree(Dir(m)) && Insert(m, keys, e).Loaded?
    requires forall c | c in keys :: '/' !in c
    ensures SlashFree(Dir(Insert(m, keys, e).m))
    decreases |keys|, 1
  {
    var key := keys[0];
    DecodedIsSlashFree(e);
    if e.flag == SLICE_FLAG && |keys| == 2 {
      SlashFreeWith(m, key, List([]));
    } else if |keys| == 1 {
      SlashFreeWith(m, key, Decode(e));
    } else if key in m && m[key].List? {
      ElementKeepsSlashFree(m, key, keys[1..], e);
    } else if !(key in m && m[key].Scalar?) {
      var sub := if key in m then m[key].m else map[];
      InsertKeepsSlashFree(sub, keys[1..], e);
      SlashFreeWith(m, key, Dir(Insert(sub, keys[1..], e).m));
    }
  }

  lemma {:induction false} ElementKeepsSlashFree(m: map<string, Tree>, key: string, keys: Path, e: Entry)
    requires keys != [] && key in m && m[key].List? && SlashFree(Dir(m)) && InsertElement(m, key, keys, e).Loaded?
    requires forall c | c in keys :: '/' !in c
    ensures SlashFree(Dir(InsertElement(m, key, keys, e).m))
    decreases |keys|, 0
  {
    var items, i := m[key].items, AtoiIgnoringError(keys[0]);
    var old' := if i < |items| then items[i].m else map[];
    var sub := if |keys| == 1 then old' else Insert(old', keys[1..], e).m;
    if |keys| > 1 {
      InsertKeepsSlashFree(old', keys[1..], e);
    }
    SlashFreeList(items, i, Dir(sub));
    SlashFreeWith(m, key, List(if i == |items| then items + [Dir(sub)] else items[i := Dir(sub)]));
  }

  /** Whatever is listed, no key of what is loaded has a slash. */
  lemma {:induction false} LoadIsSlashFree(pairs: seq<Pair>, offset: string)
    requires Load(pairs, offset).Loaded?
    ensures SlashFree(Dir(Load(pairs, offset).m))
  {
    if pairs != [] {
      var n := |pairs| - 1;
      var m, below := Load(pairs[..n], offset).m, Below(pairs[n].key, offset);
      LoadIsSlashFree(pairs[..n], offset);
      if below != "" {
        InsertKeepsSlashFree(m, Split(below), pairs[n].e);
      }
    }
  }

  lemma {:induction false} SlashFreeIsValid(t: Tree)
    requires KeysValid(t) && SlashFree(t)
    ensures Valid(t)
  {
    match t
    case Scalar(_) =>
    case Dir(m) =>
      forall k | k in m ensures ValidComponent(k) && (m[k].Scalar? ==> k[|k| - 1] != ' ') && Valid(m[k]) {
        SlashFreeIsValid(m[k]);
        SplitAtFirstSlash(k, "");
        assert KeyIsValid(k, m[k]) && k in Split(k);
      }
    case List(items) =>
      forall i | 0 <= i < |items| ensures Valid(items[i]) {
        SlashFreeIsValid(items[i]);
      }
  }

  /** A tree with valid keys, whether or not they begin one another, comes back as it was if and only if
      no key at any depth has a slash, its slices fit and hold only maps, and no map holds an empty
      string. */
  lemma LoadIsIdentityExactly(prefix: string, m: map<string, Tree>, before: Entries, after: Entries, query: string,
      pairs: seq<Pair>)
    requires GoodPrefix(prefix) && KeysValid(Dir(m))
    requires Written(before, after, PutPairs(prefix, Dir(m)), true)
    requires query <= WithSlash(prefix) && forall key | key in before && query <= key :: key == WithSlash(prefix)
    requires IsAnswer(pairs, after, query)
    ensures Load(pairs, prefix) == Loaded(m) <==> SlashFree(Dir(m)) && Fits(Dir(m)) && Faithful(Dir(m))
  {
    if Load(pairs, prefix).Loaded? {
      LoadIsSlashFree(pairs, prefix);
    }
    if SlashFree(Dir(m)) {
      SlashFreeIsValid(Dir(m));
      LoadOfValidIsIdentityExactly(prefix, m, before, after, query, pairs);
    }
  }
}
