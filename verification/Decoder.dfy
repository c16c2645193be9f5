/** What ListMap computes, as a function: one entry after the other is inserted into the tree. */
module Decoder {
  import opened Strings
  import opened Decimal
  import opened Trees

  /** Go panics when ListMap writes through a scalar or indexes a slice past its end. */
  datatype Outcome = Loaded(m: map<string, Tree>) | Panic

  /** One entry, walked down the components of its key from the map m. */
  function Insert(m: map<string, Tree>, keys: Path, e: Entry): Outcome
    requires keys != []
    decreases |keys|
  {
    var key := keys[0];
    if e.flag == SLICE_FLAG && |keys| == 2 then
      Loaded(m[key := List([])])
    else if |keys| == 1 then
      if Decode(e) != EMPTY_STRING then Loaded(m[key := Decode(e)]) else Loaded(m)
    else if key in m && m[key].List? then
      InsertElement(m, key, keys[1..], e)
    else if key in m && m[key].Scalar? then
      InsertNowhere(m, keys[1..], e)
    else
      match Insert(if key in m then m[key].m else map[], keys[1..], e)
      case Loaded(sub) => Loaded(m[key := Dir(sub)])
      case Panic => Panic
  }

  /** The component after a slice is its index: one past the end appends an empty map. */
  function InsertElement(m: map<string, Tree>, key: string, keys: Path, e: Entry): Outcome
    requires keys != [] && key in m && m[key].List?
    decreases |keys|
  {
    var items := m[key].items;
    var i := AtoiIgnoringError(keys[0]);
    if i == |items| then
      if |keys| == 1 then Loaded(m[key := List(items + [Dir(map[])])])
      else match Insert(map[], keys[1..], e)
        case Loaded(sub) => Loaded(m[key := List(items + [Dir(sub)])])
        case Panic => Panic
    else if 0 <= i < |items| && items[i].Dir? then
      if |keys| == 1 then Loaded(m)
      else match Insert(items[i].m, keys[1..], e)
        case Loaded(sub) => Loaded(m[key := List(items[i := Dir(sub)])])
        case Panic => Panic
    else
      Panic
  }

  /** Below a scalar the cursor is a nil map: it can be read, but not written. */
  function InsertNowhere(m: map<string, Tree>, keys: Path, e: Entry): Outcome
    requires keys != []
  {
    if |keys| == 1 && Decode(e) == EMPTY_STRING then Loaded(m) else Panic
  }

  // ---------------------------------------------------------------- from string keys

  /** A key of a listing and its entry. */
  datatype Pair = Pair(key: string, e: Entry)

  /** The key below the offset, as ListMap cuts it. */
  function Below(key: string, offset: string): string {
    TrimPrefix(TrimBlanks(key), WithSlash(offset))
  }

  function InsertPair(m: map<string, Tree>, p: Pair, offset: string): Outcome {
    if Below(p.key, offset) == "" then Loaded(m) else Insert(m, Split(Below(p.key, offset)), p.e)
  }

  /** ListMap does not see blanks at the ends of a key, wherever the key comes from. */
  lemma BlanksAreCut(m: map<string, Tree>, left: string, p: Pair, right: string, offset: string)
    requires AllBlank(left) && AllBlank(right)
    ensures InsertPair(m, Pair(left + p.key + right, p.e), offset) == InsertPair(m, p, offset)
  {
    TrimOfBlanks(left, p.key, right);
  }

  /** ListMap over a listing, starting from the empty map. */
  function Load(pairs: seq<Pair>, offset: string): Outcome {
    if pairs == [] then Loaded(map[])
    else match Load(pairs[..|pairs| - 1], offset)
      case Loaded(m) => InsertPair(m, pairs[|pairs| - 1], offset)
      case Panic => Panic
  }

  lemma LoadStep(pairs: seq<Pair>, n: nat, offset: string)
    requires n < |pairs|
    ensures Load(pairs[..n + 1], offset) ==
      match Load(pairs[..n], offset) { case Loaded(m) => InsertPair(m, pairs[n], offset) case Panic => Panic }
  {
    assert pairs[..n + 1][..n] == pairs[..n];
  }

  lemma {:induction false} PanicStays(pairs: seq<Pair>, offset: string, n: nat)
    requires n <= |pairs| && Load(pairs[..n], offset) == Panic
    ensures Load(pairs, offset) == Panic
    decreases |pairs| - n
  {
    if n < |pairs| {
      LoadStep(pairs, n, offset);
      PanicStays(pairs, offset, n + 1);
    } else {
      assert pairs[..n] == pairs;
    }
  }

  // ---------------------------------------------------------------- going on

  /** ListMap going on from an outcome. */
  function Resume(o: Outcome, pairs: seq<Pair>, prefix: string): Outcome
    decreases |pairs|
  {
    if o.Panic? || pairs == [] then o else Resume(InsertPair(o.m, pairs[0], prefix), pairs[1..], prefix)
  }

  lemma ResumeAt(m: map<string, Tree>, pairs: seq<Pair>, prefix: string, i: nat)
    requires i < |pairs|
    ensures Resume(Loaded(m), pairs[i..], prefix) == Resume(InsertPair(m, pairs[i], prefix), pairs[i + 1..], prefix)
  {
    assert pairs[i..][0] == pairs[i] && pairs[i..][1..] == pairs[i + 1..];
  }

  lemma {:induction false} ResumeLoad(pairs: seq<Pair>, prefix: string, n: nat)
    requires n <= |pairs|
    ensures Resume(Load(pairs[..n], prefix), pairs[n..], prefix) == Load(pairs, prefix)
    decreases |pairs| - n
  {
    if n == |pairs| {
      assert pairs[..n] == pairs;
    } else if Load(pairs[..n], prefix).Panic? {
      PanicStays(pairs, prefix, n);
    } else {
      LoadStep(pairs, n, prefix);
      ResumeAt(Load(pairs[..n], prefix).m, pairs, prefix, n);
      ResumeLoad(pairs, prefix, n + 1);
    }
  }
}
