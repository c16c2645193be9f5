/** The key-value store as the agents see it: a map from keys to entries that PutMap and its
    helpers write key by key, and that is listed in key order. */
module Consul {
  import opened Strings
  import opened Decimal
  import opened GoPath
  import opened Trees
  import opened KeyTrees
  import opened Decoder
  import opened Listings
  import opened Writes

  type Entries = map<string, Entry>

  // ---------------------------------------------------------------- what a batch of puts does

  ghost predicate Puts(w: set<Pair>, key: string) {
    exists e :: Pair(key, e) in w
  }

  predicate SameAt(before: Entries, after: Entries, key: string) {
    (key in before <==> key in after) && (key in before ==> before[key] == after[key])
  }

  /** Some of the pairs w have been put, and nothing else; if complete, each of their keys has. */
  ghost predicate Written(before: Entries, after: Entries, w: set<Pair>, complete: bool) {
    && (forall key | !Puts(w, key) :: SameAt(before, after, key))
    && (forall key | Puts(w, key) ::
      (key in after && Pair(key, after[key]) in w) || (!complete && SameAt(before, after, key)))
  }

  lemma WrittenThen(a: Entries, b: Entries, c: Entries, w: set<Pair>, w': set<Pair>, complete: bool)
    requires Written(a, b, w, true) && Written(b, c, w', complete)
    ensures Written(a, c, w + w', complete)
  {
    forall key ensures Puts(w + w', key) <==> Puts(w, key) || Puts(w', key) {
      if e :| Pair(key, e) in w { assert Pair(key, e) in w + w'; }
      if e :| Pair(key, e) in w' { assert Pair(key, e) in w + w'; }
    }
    forall key | Puts(w + w', key)
      ensures (key in c && Pair(key, c[key]) in w + w') || (!complete && SameAt(a, c, key))
    {
      if !Puts(w', key) {
        assert SameAt(b, c, key);
      }
    }
  }

  lemma WrittenPartOf(a: Entries, b: Entries, w: set<Pair>, w': set<Pair>)
    requires Written(a, b, w, false) && w <= w'
    ensures Written(a, b, w', false)
  {
    forall key | Puts(w, key) ensures Puts(w', key) {
      var e :| Pair(key, e) in w;
      assert Pair(key, e) in w';
    }
  }

  /** The pairs put for the keys ks of a map. */
  function PairsFor(base: string, m: map<string, Tree>, ks: set<string>): set<Pair>
    requires ks <= m.Keys
  {
    set k, w | k in ks && w in PutPairs(JoinPath(base, k), m[k]) :: w
  }

  /** The first n sets together. */
  function Union(sets: seq<set<Pair>>, n: nat): set<Pair>
    requires n <= |sets|
  {
    if n == 0 then {} else Union(sets, n - 1) + sets[n - 1]
  }

  lemma {:induction false} InUnion(sets: seq<set<Pair>>, n: nat, i: nat)
    requires i < n <= |sets|
    ensures sets[i] <= Union(sets, n)
  {
    if i < n - 1 {
      InUnion(sets, n - 1, i);
    }
  }

  lemma {:induction false} UnionIsIn(sets: seq<set<Pair>>, n: nat, all: set<Pair>)
    requires n <= |sets| && forall i | 0 <= i < n :: sets[i] <= all
    ensures Union(sets, n) <= all
  {
    if n > 0 {
      UnionIsIn(sets, n - 1, all);
    }
  }

  function PairsOfElements(base: string, items: seq<Tree>): (sets: seq<set<Pair>>)
    ensures |sets| == |items|
  {
    seq(|items|, i requires 0 <= i < |items| => PutPairs(JoinPath(base, Index(i)), items[i]))
  }

  /** The pairs put for a slice's marker and its first n elements. */
  function PairsUpTo(base: string, items: seq<Tree>, n: nat): set<Pair>
    requires n <= |items|
  {
    {Pair(base, SLICE_MARK)} + Union(PairsOfElements(base, items), n)
  }

  lemma PairsUpToStep(base: string, items: seq<Tree>, i: nat)
    requires i < |items|
    ensures PairsUpTo(base, items, i + 1) == PairsUpTo(base, items, i) + PutPairs(JoinPath(base, Index(i)), items[i])
  {
    assert PairsOfElements(base, items)[i] == PutPairs(JoinPath(base, Index(i)), items[i]);
  }

  lemma PairsUpToArePut(prefix: string, items: seq<Tree>, n: nat)
    requires n <= |items|
    ensures PairsUpTo(WithSlash(prefix), items, n) <= PutPairs(prefix, List(items))
  {
    UnionIsIn(PairsOfElements(WithSlash(prefix), items), n, PutPairs(prefix, List(items)));
  }

  lemma PairsUpToAll(prefix: string, items: seq<Tree>)
    ensures PairsUpTo(WithSlash(prefix), items, |items|) == PutPairs(prefix, List(items))
  {
    var base := WithSlash(prefix);
    PairsUpToArePut(prefix, items, |items|);
    forall w | w in PutPairs(prefix, List(items)) ensures w in PairsUpTo(base, items, |items|) {
      if w != Pair(base, SLICE_MARK) {
        var i :| 0 <= i < |items| && w in PutPairs(JoinPath(base, Index(i)), items[i]);
        assert w in PairsOfElements(base, items)[i];
        InUnion(PairsOfElements(base, items), |items|, i);
      }
    }
  }

  // ---------------------------------------------------------------- what has been done

  /** An operation of the store that succeeded. */
  datatype Op = Acquired(key: string, e: Entry) | Released(key: string) | Deleted(prefix: string) | PutDone(p: Pair)

  function Apply(s: Entries, op: Op): Entries {
    match op
    case Acquired(key, e) => s[key := e]
    case Released(_) => s
    case Deleted(prefix) => WithoutPrefix(s, prefix)
    case PutDone(p) => s[p.key := p.e]
  }

  /** The entries after the operations, one after the other. */
  function Replay(s: Entries, ops: seq<Op>): Entries {
    if ops == [] then s else Apply(Replay(s, ops[..|ops| - 1]), ops[|ops| - 1])
  }

  /** The locks that are held after the operations. */
  function LocksAfter(ops: seq<Op>): set<string> {
    if ops == [] then {} else
      var held, op := LocksAfter(ops[..|ops| - 1]), ops[|ops| - 1];
      if op.Acquired? then held + {op.key} else if op.Released? then held - {op.key} else held
  }

  lemma ReplayOneMore(s: Entries, ops: seq<Op>, op: Op)
    ensures Replay(s, ops + [op]) == Apply(Replay(s, ops), op)
  {
    assert (ops + [op])[..|ops|] == ops;
  }

  lemma LocksOneMore(ops: seq<Op>, op: Op)
    ensures LocksAfter(ops + [op]) == if op.Acquired? then LocksAfter(ops) + {op.key}
      else if op.Released? then LocksAfter(ops) - {op.key} else LocksAfter(ops)
  {
    assert (ops + [op])[..|ops|] == ops;
  }

  predicate Extends(before: seq<Op>, after: seq<Op>) {
    |before| <= |after| && forall i | 0 <= i < |before| :: after[i] == before[i]
  }

  /** Between the two moments p has been put. */
  ghost predicate PutBetween(before: seq<Op>, after: seq<Op>, p: Pair) {
    exists i :: |before| <= i < |after| && after[i] == PutDone(p)
  }

  /** Between the two moments nothing was done but to put pairs of w, and if complete, each of them. */
  ghost predicate Recorded(before: seq<Op>, after: seq<Op>, w: set<Pair>, complete: bool) {
    && Extends(before, after)
    && (forall i | |before| <= i < |after| :: after[i].PutDone? && after[i].p in w)
    && (complete ==> forall p | p in w :: PutBetween(before, after, p))
  }

  lemma RecordedThen(a: seq<Op>, b: seq<Op>, c: seq<Op>, w: set<Pair>, w': set<Pair>, complete: bool)
    requires Recorded(a, b, w, true) && Recorded(b, c, w', complete)
    ensures Recorded(a, c, w + w', complete)
  {
    forall i | |a| <= i < |c| ensures c[i].PutDone? && c[i].p in w + w' {
      assert i < |b| ==> c[i] == b[i];
    }
    if complete {
      forall p | p in w + w' ensures PutBetween(a, c, p) {
        PutThen(a, b, c, p);
      }
    }
  }

  lemma PutThen(a: seq<Op>, b: seq<Op>, c: seq<Op>, p: Pair)
    requires Extends(a, b) && Extends(b, c)
    ensures PutBetween(a, b, p) || PutBetween(b, c, p) ==> PutBetween(a, c, p)
  {
    if PutBetween(a, b, p) {
      var i :| |a| <= i < |b| && b[i] == PutDone(p);
      assert c[i] == PutDone(p);
    }
  }

  lemma RecordedPartOf(a: seq<Op>, b: seq<Op>, w: set<Pair>, w': set<Pair>)
    requires Recorded(a, b, w, false) && w <= w'
    ensures Recorded(a, b, w', false)
  {
  }

  /** The entries and the operations so far. */
  datatype Moment = Moment(store: Entries, trace: seq<Op>)

  /** Between the two moments the pairs w were put; or some of them, if not complete. */
  ghost predicate Did(a: Moment, b: Moment, w: set<Pair>, complete: bool) {
    Written(a.store, b.store, w, complete) && Recorded(a.trace, b.trace, w, complete)
  }

  lemma DidPut(a: Moment, p: Pair)
    ensures Did(a, Moment(a.store[p.key := p.e], a.trace + [PutDone(p)]), {p}, true)
  {
    var b := Moment(a.store[p.key := p.e], a.trace + [PutDone(p)]);
    assert p in {p};
    assert forall e, key | Pair(key, e) in {p} :: key == p.key;
    assert b.trace[|a.trace|] == PutDone(p);
  }

  lemma DidThen(a: Moment, b: Moment, c: Moment, w: set<Pair>, w': set<Pair>, complete: bool)
    requires Did(a, b, w, true) && Did(b, c, w', complete)
    ensures Did(a, c, w + w', complete)
  {
    WrittenThen(a.store, b.store, c.store, w, w', complete);
    RecordedThen(a.trace, b.trace, c.trace, w, w', complete);
  }

  lemma DidPartOf(a: Moment, b: Moment, w: set<Pair>, w': set<Pair>)
    requires Did(a, b, w, false) && w <= w'
    ensures Did(a, b, w', false)
  {
    WrittenPartOf(a.store, b.store, w, w');
    RecordedPartOf(a.trace, b.trace, w, w');
  }

  lemma KeyDone(prefix: string, m: map<string, Tree>, done: set<string>, key: string, a: Moment, b: Moment, c: Moment,
      ok: bool)
    requires done <= m.Keys && key in m && Did(a, b, PairsFor(WithSlash(prefix), m, done), true)
    requires Did(b, c, PutPairs(JoinPath(WithSlash(prefix), key), m[key]), ok)
    ensures ok ==> Did(a, c, PairsFor(WithSlash(prefix), m, done + {key}), true)
    ensures !ok ==> Did(a, c, PutPairs(prefix, Dir(m)), false)
  {
    var base := WithSlash(prefix);
    var before, w := PairsFor(base, m, done), PutPairs(JoinPath(base, key), m[key]);
    DidThen(a, b, c, before, w, ok);
    assert before + w == PairsFor(base, m, done + {key});
    if !ok {
      DidPartOf(a, c, before + w, PutPairs(prefix, Dir(m)));
    }
  }

  lemma ElementDone(prefix: string, items: seq<Tree>, i: nat, a: Moment, b: Moment, c: Moment, ok: bool)
    requires i < |items| && Did(a, b, PairsUpTo(WithSlash(prefix), items, i), true)
    requires Did(b, c, PutPairs(JoinPath(WithSlash(prefix), Index(i)), items[i]), ok)
    ensures ok ==> Did(a, c, PairsUpTo(WithSlash(prefix), items, i + 1), true)
    ensures !ok ==> Did(a, c, PutPairs(prefix, List(items)), false)
  {
    var base := WithSlash(prefix);
    DidThen(a, b, c, PairsUpTo(base, items, i), PutPairs(JoinPath(base, Index(i)), items[i]), ok);
    PairsUpToStep(base, items, i);
    PairsUpToArePut(prefix, items, i + 1);
    if !ok {
      DidPartOf(a, c, PairsUpTo(base, items, i + 1), PutPairs(prefix, List(items)));
    }
  }

  // ---------------------------------------------------------------- the writer

  class KV {
    var store: Entries
    /** The keys whose locks are held. */
    var held: set<string>
    ghost const initial: Entries
    ghost var trace: seq<Op>
    /** How many operations Consul has refused. */
    ghost var refused: nat

    ghost predicate Valid()
      reads this
    {
      store == Replay(initial, trace) && held == LocksAfter(trace)
    }

    ghost function Now(): Moment
      reads this
    {
      Moment(store, trace)
    }

    constructor (entries: Entries)
      ensures Valid() && store == entries && held == {} && trace == [] && refused == 0
    {
      store, held, initial, trace, refused := entries, {}, entries, [], 0;
    }

    /** Takes the lock of a key, which nobody else holds then, and which Consul keeps as an entry at
        the key. */
    method AcquireLockKey(key: string) returns (ok: bool, ghost e: Entry)
      requires Valid()
      modifies this
      ensures Valid()
      ensures key == "" || key in old(held) ==> !ok
      ensures ok ==> held == old(held) + {key} && store == old(store)[key := e]
      ensures ok ==> trace == old(trace) + [Acquired(key, e)]
      ensures !ok ==> held == old(held) && store == old(store) && trace == old(trace)
      ensures refused == old(refused) + if ok then 0 else 1
    {
      var lockEntry: Entry := *;
      ok := *;
      e := lockEntry;
      if key == "" || key in held {
        ok := false;
      }
      if ok {
        ReplayOneMore(initial, trace, Acquired(key, e));
        LocksOneMore(trace, Acquired(key, e));
        store, held, trace := store[key := lockEntry], held + {key}, trace + [Acquired(key, e)];
      } else {
        refused := refused + 1;
      }
    }

    /** Gives a lock back. */
    method Unlock(key: string)
      requires Valid()
      modifies this
      ensures Valid()
      ensures held == old(held) - {key} && store == old(store) && trace == old(trace) + [Released(key)]
      ensures refused == old(refused)
    {
      ReplayOneMore(initial, trace, Released(key));
      LocksOneMore(trace, Released(key));
      held, trace := held - {key}, trace + [Released(key)];
    }

    /** One put. Consul may refuse it, and then the key stays as it was. */
    method Put(p: Pair) returns (ok: bool)
      requires Valid()
      modifies this
      ensures Valid() && held == old(held)
      ensures refused == old(refused) + if ok then 0 else 1
      ensures Did(old(Now()), Now(), {p}, ok)
      ensures store == if ok then old(store)[p.key := p.e] else old(store)
      ensures trace == if ok then old(trace) + [PutDone(p)] else old(trace)
    {
      ok := *;
      if ok {
        ReplayOneMore(initial, trace, PutDone(p));
        LocksOneMore(trace, PutDone(p));
        DidPut(Now(), p);
        store, trace := store[p.key := p.e], trace + [PutDone(p)];
      } else {
        refused := refused + 1;
      }
    }

    /** A scalar with the flag of its kind, or the marker of a slice. */
    method PutTyped(prefix: string, value: Tree) returns (ok: bool)
      requires !value.Dir?
      requires Valid()
      modifies this
      ensures Valid() && held == old(held)
      ensures refused == old(refused) + if ok then 0 else 1
      ensures Did(old(Now()), Now(), {Pair(prefix, if value.List? then SLICE_MARK else TypedEntry(value.v))}, ok)
    {
      var flag := STRING_FLAG;
      var text := "";
      match value {
        case Scalar(v) =>
          text := TypedEntry(v).text;
          match v {
            case Int32Value(_) => flag := INT32_FLAG;
            case Bool(_) => flag := BOOL_FLAG;
            case Int(_) => flag := INT_FLAG;
            case _ =>
          }
        case List(_) => flag := SLICE_FLAG;
      }
      assert Entry(text, flag) == if value.List? then SLICE_MARK else TypedEntry(value.v);
      ok := Put(Pair(prefix, Entry(text, flag)));
    }

    /** Go visits the keys of a map in no particular order. */
    method PutMap(prefix: string, data: map<string, Tree>) returns (ok: bool)
      requires Valid()
      modifies this
      ensures Valid() && held == old(held)
      ensures refused == old(refused) + if ok then 0 else 1
      ensures Did(old(Now()), Now(), PutPairs(prefix, Dir(data)), ok)
      decreases Dir(data), 0
    {
      var base := WithSlash(prefix);
      if data == map[] {
        ok := PutTyped(base, EMPTY_STRING);
        return;
      }
      var done: set<string> := {};
      ghost var before := Now();
      while done != data.Keys
        invariant done <= data.Keys
        invariant Valid() && held == old(held) && refused == old(refused)
        invariant Did(before, Now(), PairsFor(base, data, done), true)
        decreases data.Keys - done
      {
        assert data.Keys == done + (data.Keys - done);
        var key :| key in data.Keys - done;
        ghost var here := Now();
        ok := PutInterface(JoinPath(base, key), data[key]);
        KeyDone(prefix, data, done, key, before, here, Now(), ok);
        if !ok {
          return;
        }
        done := done + {key};
      }
      assert PairsFor(base, data, data.Keys) == PutPairs(prefix, Dir(data));
      ok := true;
    }

    method PutInterface(prefix: string, value: Tree) returns (ok: bool)
      requires Valid()
      modifies this
      ensures Valid() && held == old(held)
      ensures refused == old(refused) + if ok then 0 else 1
      ensures Did(old(Now()), Now(), PutPairs(prefix, value), ok)
      decreases value, 1
    {
      match value {
        case Dir(m) => ok := PutMap(prefix, m);
        case List(items) => ok := PutSlice(prefix, items);
        case Scalar(_) => ok := PutTyped(prefix, value);
      }
    }

    method PutSlice(prefix: string, items: seq<Tree>) returns (ok: bool)
      requires Valid()
      modifies this
      ensures Valid() && held == old(held)
      ensures refused == old(refused) + if ok then 0 else 1
      ensures Did(old(Now()), Now(), PutPairs(prefix, List(items)), ok)
      decreases List(items), 0
    {
      var base := WithSlash(prefix);
      ghost var before := Now();
      PairsUpToArePut(prefix, items, 0);
      ok := PutTyped(base, List([]));
      if !ok {
        DidPartOf(before, Now(), PairsUpTo(base, items, 0), PutPairs(prefix, List(items)));
        return;
      }
      for i := 0 to |items|
        invariant Valid() && held == old(held) && refused == old(refused)
        invariant Did(before, Now(), PairsUpTo(base, items, i), true)
      {
        ghost var here := Now();
        ok := PutInterface(JoinPath(base, Index(i)), items[i]);
        ElementDone(prefix, items, i, before, here, Now(), ok);
        if !ok {
          return;
        }
      }
      PairsUpToAll(prefix, items);
      ok := true;
    }

    /** Deletes every key that begins with the prefix, whole component or not. */
    method DeleteTree(prefix: string) returns (ok: bool)
      requires Valid()
      modifies this
      ensures Valid() && held == old(held)
      ensures refused == old(refused) + if ok then 0 else 1
      ensures store == if ok then WithoutPrefix(old(store), prefix) else old(store)
      ensures trace == if ok then old(trace) + [Deleted(prefix)] else old(trace)
    {
      ok := *;
      if ok {
        ReplayOneMore(initial, trace, Deleted(prefix));
        LocksOneMore(trace, Deleted(prefix));
        store, trace := WithoutPrefix(store, prefix), trace + [Deleted(prefix)];
      } else {
        refused := refused + 1;
      }
    }
  }

  function WithoutPrefix(s: Entries, prefix: string): Entries {
    map k | k in s && !(prefix <= k) :: s[k]
  }

  // ---------------------------------------------------------------- the listing

  /** The sorted answer of Consul to a query for all keys that begin with the prefix. */
  ghost predicate IsAnswer(pairs: seq<Pair>, s: Entries, prefix: string) {
    && Sorted(pairs)
    && (forall i | 0 <= i < |pairs| :: prefix <= pairs[i].key && pairs[i].key in s && s[pairs[i].key] == pairs[i].e)
    && forall key | key in s && prefix <= key :: Listed(pairs, key)
  }

  /** Every query has an answer. */
  lemma {:induction false} AnswerExists(s: Entries, prefix: string) returns (pairs: seq<Pair>)
    ensures IsAnswer(pairs, s, prefix)
    decreases |s|
  {
    if s == map[] {
      pairs := [];
    } else {
      var key :| key in s;
      var rest := s - {key};
      assert |rest.Keys| < |s.Keys| by {
        assert rest.Keys == s.Keys - {key};
      }
      var others := AnswerExists(rest, prefix);
      if prefix <= key {
        pairs := InsertSorted(others, Pair(key, s[key]));
        forall k | k in s && prefix <= k ensures Listed(pairs, k) {
          if k != key {
            assert Listed(others, k);
          }
        }
      } else {
        pairs := others;
      }
    }
  }

  lemma {:induction false} InsertSorted(pairs: seq<Pair>, p: Pair) returns (r: seq<Pair>)
    requires Sorted(pairs) && !Listed(pairs, p.key)
    ensures Sorted(r)
    ensures forall i | 0 <= i < |r| :: r[i] == p || r[i] in pairs
    ensures forall k :: Listed(r, k) <==> Listed(pairs, k) || k == p.key
  {
    if pairs == [] {
      r := [p];
      assert r[0].key == p.key;
    } else {
      var n := |pairs| - 1;
      var last := pairs[n];
      LessTotal(last.key, p.key);
      if Less(last.key, p.key) {
        r := pairs + [p];
        forall i | 0 <= i < n ensures Less(pairs[i].key, p.key) {
          LessTransitive(pairs[i].key, last.key, p.key);
        }
        assert r[n + 1] == p;
        assert forall i | 0 <= i <= n :: r[i] == pairs[i];
      } else {
        var front := InsertSorted(pairs[..n], p);
        r := front + [last];
        forall i | 0 <= i < |front| ensures Less(front[i].key, last.key) {
          assert front[i] == p || front[i] in pairs[..n];
        }
        assert r[|front|] == last;
        assert forall i | 0 <= i < |front| :: r[i] == front[i];
        forall k ensures Listed(r, k) <==> Listed(pairs, k) || k == p.key {
          assert Listed(pairs, k) <==> Listed(pairs[..n], k) || k == last.key;
          assert Listed(r, k) <==> Listed(front, k) || k == last.key;
        }
      }
    }
  }
}
