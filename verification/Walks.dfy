/** What an entry does to the walk down another path: where a scalar has been loaded, no entry can
    be put below it. */
module Walks {
  import opened Strings
  import opened Decimal
  import opened Trees
  import opened Decoder

  /** The walk down p ends, or goes on in maps only, until it meets a scalar or a missing key. */
  predicate MeetsNoSlice(m: map<string, Tree>, p: Path)
    decreases |p|
  {
    p == [] || p[0] !in m || match m[p[0]] {
      case Scalar(_) => true
      case Dir(sub) => MeetsNoSlice(sub, p[1..])
      case List(_) => false
    }
  }

  /** At the end of the walk down p, in maps only, is a scalar. */
  predicate EndsAtScalar(m: map<string, Tree>, p: Path)
    decreases |p|
  {
    p != [] && p[0] in m &&
    if |p| == 1 then m[p[0]].Scalar? else m[p[0]].Dir? && EndsAtScalar(m[p[0]].m, p[1..])
  }

  /** The entry puts no slice on the way to p, p itself included. */
  predicate NoSliceOn(k: Path, e: Entry, p: Path)
    requires k != []
  {
    e.flag == SLICE_FLAG ==> !(k[..|k| - 1] <= p)
  }

  lemma PrefixOfTails(k: Path, p: Path)
    requires k != [] && p != [] && k[0] == p[0]
    ensures k <= p <==> k[1..] <= p[1..]
  {
    assert k == [k[0]] + k[1..] && p == [p[0]] + p[1..];
    if k[1..] <= p[1..] {
      assert p[1..][..|k| - 1] == k[1..];
      assert p[..|k|] == [p[0]] + p[1..][..|k| - 1];
    }
  }

  lemma NoSliceBelow(k: Path, e: Entry, p: Path)
    requires |k| > 1 && p != [] && k[0] == p[0] && NoSliceOn(k, e, p)
    ensures NoSliceOn(k[1..], e, p[1..])
  {
    PrefixOfTails(k[..|k| - 1], p);
    assert k[..|k| - 1][1..] == k[1..][..|k| - 2];
  }

  lemma SliceOnFirst(k: Path, e: Entry, p: Path)
    requires k != [] && p != [] && NoSliceOn(k, e, p) && e.flag == SLICE_FLAG
    ensures |k| > 1 && (|k| == 2 ==> k[0] != p[0])
  {
    assert k[..0] <= p;
    assert |k| == 2 ==> k[..1] == [k[0]];
  }

  lemma {:induction false} StaysWithoutSlice(m: map<string, Tree>, k: Path, e: Entry, p: Path)
    requires k != [] && MeetsNoSlice(m, p) && NoSliceOn(k, e, p) && Insert(m, k, e).Loaded?
    ensures MeetsNoSlice(Insert(m, k, e).m, p)
    decreases |k|
  {
    if p != [] {
      if e.flag == SLICE_FLAG { SliceOnFirst(k, e, p); }
      if k[0] == p[0] && |k| > 1 && !(k[0] in m && m[k[0]].Scalar?) {
        NoSliceBelow(k, e, p);
        StaysWithoutSlice(if k[0] in m then m[k[0]].m else map[], k[1..], e, p[1..]);
      }
    }
  }

  /** A scalar that is no empty string is loaded, or the walk to it ends at another one. */
  lemma {:induction false} ScalarIsLoaded(m: map<string, Tree>, p: Path, e: Entry)
    requires p != [] && MeetsNoSlice(m, p) && Decode(e).Scalar? && Decode(e) != EMPTY_STRING && Insert(m, p, e).Loaded?
    ensures EndsAtScalar(Insert(m, p, e).m, p)
    decreases |p|
  {
    if |p| > 1 && !(p[0] in m && m[p[0]].Scalar?) {
      ScalarIsLoaded(if p[0] in m then m[p[0]].m else map[], p[1..], e);
    }
  }

  /** The scalar stays as long as neither it nor a map on the way to it is written over. */
  lemma {:induction false} ScalarStays(m: map<string, Tree>, k: Path, e: Entry, p: Path)
    requires k != [] && EndsAtScalar(m, p) && NoSliceOn(k, e, p) && !(k <= p) && Insert(m, k, e).Loaded?
    ensures EndsAtScalar(Insert(m, k, e).m, p)
    decreases |k|
  {
    if e.flag == SLICE_FLAG { SliceOnFirst(k, e, p); }
    if k[0] == p[0] {
      PrefixOfTails(k, p);
      if |k| == 1 {
        assert false;
      } else if |p| > 1 {
        NoSliceBelow(k, e, p);
        ScalarStays(m[k[0]].m, k[1..], e, p[1..]);
      }
    }
  }

  /** Below a scalar only an empty string directly below it is passed over. */
  lemma {:induction false} BelowScalar(m: map<string, Tree>, k: Path, e: Entry, p: Path)
    requires EndsAtScalar(m, p) && p <= k && |p| < |k| && NoSliceOn(k, e, p)
    ensures Insert(m, k, e) == if |k| == |p| + 1 && Decode(e) == EMPTY_STRING then Loaded(m) else Panic
    decreases |k|
  {
    if e.flag == SLICE_FLAG { SliceOnFirst(k, e, p); }
    assert k[0] == p[0];
    if |p| > 1 {
      PrefixOfTails(p, k);
      NoSliceBelow(k, e, p);
      BelowScalar(m[k[0]].m, k[1..], e, p[1..]);
      assert |k| == |p| + 1 && Decode(e) == EMPTY_STRING ==> m[k[0] := Dir(m[k[0]].m)] == m;
    }
  }

  // ---------------------------------------------------------------- slices on the way

  /** The walk down p goes in maps until it meets a slice, at the end of p or before. */
  predicate MeetsSlice(m: map<string, Tree>, p: Path)
    decreases |p|
  {
    p != [] && p[0] in m && (m[p[0]].List? || (m[p[0]].Dir? && MeetsSlice(m[p[0]].m, p[1..])))
  }

  /** The marker of a slice puts one there, or the walk to it has met another. */
  lemma {:induction false} SliceIsMet(m: map<string, Tree>, p: Path, e: Entry)
    requires p != [] && e.flag == SLICE_FLAG && Insert(m, p + [""], e).Loaded?
    ensures MeetsSlice(Insert(m, p + [""], e).m, p)
    decreases |p|
  {
    assert (p + [""])[1..] == p[1..] + [""];
    if |p| > 1 && !(p[0] in m && !m[p[0]].Dir?) {
      SliceIsMet(MapAt(m, p[0]), p[1..], e);
    }
  }

  /** A slice stays as long as nothing on the way to it is written over. */
  lemma {:induction false} SliceStays(m: map<string, Tree>, k: Path, e: Entry, p: Path)
    requires k != [] && MeetsSlice(m, p) && !(k <= p) && Insert(m, k, e).Loaded?
    ensures MeetsSlice(Insert(m, k, e).m, p)
    decreases |k|
  {
    if k[0] == p[0] {
      PrefixOfTails(k, p);
      if |k| > 1 && m[k[0]].Dir? && !(e.flag == SLICE_FLAG && |k| == 2) {
        SliceStays(m[k[0]].m, k[1..], e, p[1..]);
      }
    }
  }

  /** An entry below a slice is one of the element that its component is read as, whatever text that is. */
  lemma EntryBelowSlice(m: map<string, Tree>, key: string, x: string, x': string, rest: Path, e: Entry)
    requires key in m && m[key].List? && AtoiIgnoringError(x) == AtoiIgnoringError(x')
    requires !(e.flag == SLICE_FLAG && rest == [])
    ensures Insert(m, [key, x] + rest, e) == Insert(m, [key, x'] + rest, e)
  {
    assert ([key, x] + rest)[1..][1..] == rest && ([key, x'] + rest)[1..][1..] == rest;
  }

  // ---------------------------------------------------------------- maps that are opened

  /** As far as the walk down f goes, it goes in maps. */
  predicate OnlyMaps(m: map<string, Tree>, f: Path)
    decreases |f|
  {
    f == [] || f[0] !in m || (m[f[0]].Dir? && OnlyMaps(m[f[0]].m, f[1..]))
  }

  function MapAt(m: map<string, Tree>, key: string): map<string, Tree> {
    if key in m && m[key].Dir? then m[key].m else map[]
  }

  /** The tree with the maps down the path f, which are added where they are missing. */
  function Opened(m: map<string, Tree>, f: Path): map<string, Tree>
    decreases |f|
  {
    if f == [] then m else m[f[0] := Dir(Opened(MapAt(m, f[0]), f[1..]))]
  }

  /** The entry puts nothing but maps on the way down f. */
  predicate Passes(k: Path, e: Entry, f: Path)
    requires k != []
  {
    NoSliceOn(k, e, f) && (k <= f ==> Decode(e) == EMPTY_STRING)
  }

  lemma PassesBelow(k: Path, e: Entry, f: Path)
    requires |k| > 1 && f != [] && k[0] == f[0] && Passes(k, e, f)
    ensures Passes(k[1..], e, f[1..])
  {
    NoSliceBelow(k, e, f);
    PrefixOfTails(k, f);
  }

  lemma PassesFirst(k: Path, e: Entry, f: Path)
    requires k != [] && f != [] && k[0] == f[0] && Passes(k, e, f)
    ensures |k| == 1 ==> Decode(e) == EMPTY_STRING
    ensures !(e.flag == SLICE_FLAG && |k| <= 2)
  {
    if e.flag == SLICE_FLAG { SliceOnFirst(k, e, f); }
    assert |k| == 1 ==> k == f[..1];
  }

  /** An empty string, or the marker of an empty map, only opens the maps above it. */
  lemma {:induction false} QuietOpens(m: map<string, Tree>, k: Path, e: Entry)
    requires k != [] && Decode(e) == EMPTY_STRING && OnlyMaps(m, k[..|k| - 1])
    ensures Insert(m, k, e) == Loaded(Opened(m, k[..|k| - 1]))
    decreases |k|
  {
    if |k| > 1 {
      assert k[..|k| - 1][1..] == k[1..][..|k| - 2];
      QuietOpens(MapAt(m, k[0]), k[1..], e);
    }
  }

  lemma {:induction false} StaysOpen(m: map<string, Tree>, k: Path, e: Entry, f: Path)
    requires k != [] && OnlyMaps(m, f) && Passes(k, e, f) && Insert(m, k, e).Loaded?
    ensures OnlyMaps(Insert(m, k, e).m, f)
    decreases |k|
  {
    if f != [] && k[0] == f[0] {
      PassesFirst(k, e, f);
      if |k| > 1 {
        PassesBelow(k, e, f);
        StaysOpen(MapAt(m, k[0]), k[1..], e, f[1..]);
      }
    }
  }

  /** Opening maps before an entry is the same as opening them after it. */
  lemma {:induction false} OpenedBefore(m: map<string, Tree>, k: Path, e: Entry, f: Path)
    requires k != [] && OnlyMaps(m, f) && Passes(k, e, f)
    ensures Insert(Opened(m, f), k, e) ==
      match Insert(m, k, e) { case Loaded(after) => Loaded(Opened(after, f)) case Panic => Panic }
    decreases |k|
  {
    if f != [] {
      if k[0] == f[0] {
        OpenedBeforeInside(m, k, e, f);
      } else {
        OpenedBeside(m, k, e, f[0], Dir(Opened(MapAt(m, f[0]), f[1..])));
      }
    }
  }

  lemma {:induction false} OpenedBeforeInside(m: map<string, Tree>, k: Path, e: Entry, f: Path)
    requires k != [] && f != [] && k[0] == f[0] && OnlyMaps(m, f) && Passes(k, e, f)
    ensures Insert(Opened(m, f), k, e) ==
      match Insert(m, k, e) { case Loaded(after) => Loaded(Opened(after, f)) case Panic => Panic }
    decreases |k|, 0
  {
    PassesFirst(k, e, f);
    if |k| > 1 {
      PassesBelow(k, e, f);
      InsertInside(m, k, e);
      InsertInside(Opened(m, f), k, e);
      OpenedBefore(MapAt(m, k[0]), k[1..], e, f[1..]);
    } else {
      assert f[..1] == k;
    }
  }

  lemma InsertInside(m: map<string, Tree>, k: Path, e: Entry)
    requires |k| > 1 && !(e.flag == SLICE_FLAG && |k| <= 2) && (k[0] in m ==> m[k[0]].Dir?)
    ensures Insert(m, k, e) ==
      match Insert(MapAt(m, k[0]), k[1..], e) { case Loaded(sub) => Loaded(m[k[0] := Dir(sub)]) case Panic => Panic }
  {
  }

  predicate SameValue(m: map<string, Tree>, m': map<string, Tree>, key: string) {
    (key in m <==> key in m') && (key in m ==> m[key] == m'[key])
  }

  /** An entry does not touch the values of other keys. */
  lemma OtherKeysStay(m: map<string, Tree>, k: Path, e: Entry, key: string)
    requires k != [] && k[0] != key && Insert(m, k, e).Loaded?
    ensures SameValue(Insert(m, k, e).m, m, key)
  {
  }

  /** The values of other keys do not matter to an entry. */
  lemma OnlyItsKeyMatters(m: map<string, Tree>, m': map<string, Tree>, k: Path, e: Entry)
    requires k != [] && SameValue(m, m', k[0])
    ensures Insert(m, k, e).Loaded? <==> Insert(m', k, e).Loaded?
    ensures Insert(m, k, e).Loaded? ==> SameValue(Insert(m, k, e).m, Insert(m', k, e).m, k[0])
  {
  }

  lemma OpenedBeside(m: map<string, Tree>, k: Path, e: Entry, key: string, t: Tree)
    requires k != [] && k[0] != key
    ensures Insert(m[key := t], k, e) ==
      match Insert(m, k, e) { case Loaded(after) => Loaded(after[key := t]) case Panic => Panic }
  {
    OnlyItsKeyMatters(m, m[key := t], k, e);
    if Insert(m, k, e).Loaded? {
      var here, there := Insert(m, k, e).m[key := t], Insert(m[key := t], k, e).m;
      forall other ensures SameValue(here, there, other) {
        if other != k[0] {
          OtherKeysStay(m, k, e, other);
          OtherKeysStay(m[key := t], k, e, other);
        }
      }
      SameMaps(here, there);
    }
  }

  lemma SameMaps(m: map<string, Tree>, m': map<string, Tree>)
    requires forall key :: SameValue(m, m', key)
    ensures m == m'
  {
    assert forall key | key in m :: SameValue(m, m', key);
    assert forall key | key in m' :: SameValue(m, m', key);
  }

  /** An entry below the opened maps opens them itself. */
  lemma {:induction false} OpenedAnyway(m: map<string, Tree>, k: Path, e: Entry, f: Path)
    requires OnlyMaps(m, f) && f <= k && |f| < |k| && Passes(k, e, f)
    ensures Insert(Opened(m, f), k, e) == Insert(m, k, e)
    decreases |k|
  {
    if f != [] {
      PassesFirst(k, e, f);
      PassesBelow(k, e, f);
      PrefixOfTails(f, k);
      OpenedAnyway(MapAt(m, k[0]), k[1..], e, f[1..]);
    }
  }
}
