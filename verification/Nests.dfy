/** Families of values at paths, and the nested map that such a family makes. */
module Nests {
  import opened Strings
  import opened Decimal
  import opened GoPath
  import opened Trees
  import opened Decoder
  import opened Progress
  import opened Writes

  /** The rests of the paths that begin with h and go on. */
  function Tails(pm: map<Path, Tree>, h: string): map<Path, Tree> {
    map r | r in Sub(pm.Keys, h) && r != [] && [h] + r in pm :: pm[[h] + r]
  }

  predicate ValidPath(p: Path, n: nat) {
    0 < |p| <= n && forall c | c in p :: ValidComponent(c)
  }

  /** Paths of up to n valid components, none of which is the beginning of another. */
  ghost predicate Paths(pm: map<Path, Tree>, n: nat) {
    && (forall p | p in pm :: ValidPath(p, n))
    && forall p, q {:trigger Clash(p, q)} | p in pm && q in pm :: !Clash(p, q)
  }

  /** A path is the beginning of another. */
  predicate Clash(p: Path, q: Path) { p != q && p <= q }

  lemma HeadIsValid(pm: map<Path, Tree>, n: nat, h: string)
    requires Paths(pm, n) && h in Heads(pm)
    ensures ValidComponent(h) && n > 0
  {
    var p :| p in pm && p != [] && p[0] == h;
    assert ValidPath(p, n) && p[0] in p;
  }

  lemma TailsHave(pm: map<Path, Tree>, h: string, r: Path)
    ensures r in Tails(pm, h) <==> r != [] && [h] + r in pm
    ensures r in Tails(pm, h) ==> Tails(pm, h)[r] == pm[[h] + r]
  {
    SubHas(pm.Keys, h, r);
  }

  lemma TailsArePaths(pm: map<Path, Tree>, n: nat, h: string)
    requires n > 0 && Paths(pm, n)
    ensures Paths(Tails(pm, h), n - 1)
  {
    var t := Tails(pm, h);
    forall r | r in t ensures ValidPath(r, n - 1) {
      TailsHave(pm, h, r);
      assert ValidPath([h] + r, n);
      assert forall c | c in r :: c in [h] + r;
    }
    forall r, r' | r in t && r' in t ensures !Clash(r, r') {
      TailsHave(pm, h, r);
      TailsHave(pm, h, r');
      assert ([h] + r)[1..] == r && ([h] + r')[1..] == r';
      assert r <= r' ==> [h] + r <= [h] + r';
      assert !Clash([h] + r, [h] + r');
    }
  }

  function Heads(pm: map<Path, Tree>): set<string> {
    set p | p in pm && p != [] :: p[0]
  }

  /** The nested map of a family of paths of up to n components. */
  function Nest(pm: map<Path, Tree>, n: nat): map<string, Tree>
    decreases n
  {
    if n == 0 then
      map[]
    else
      map h | h in Heads(pm) :: if [h] in pm then pm[[h]] else Dir(Nest(Tails(pm, h), n - 1))
  }

  function Max(s: set<nat>): (n: nat)
    ensures forall x | x in s :: x <= n
  {
    MaxExists(s);
    if s == {} then 0 else
      var n :| n in s && forall x | x in s :: x <= n;
      n
  }

  lemma MaxExists(s: set<nat>)
    ensures s != {} ==> exists n :: n in s && forall x | x in s :: x <= n
  {
    if s != {} {
      var n := MaxOf(s);
    }
  }

  lemma {:induction false} MaxOf(s: set<nat>) returns (n: nat)
    requires s != {}
    ensures n in s && forall x | x in s :: x <= n
  {
    var x :| x in s;
    n := x;
    if s != {x} {
      n := MaxOf(s - {x});
      if n < x {
        n := x;
      }
    }
    assert forall y | y in s :: y == x || y in s - {x};
  }

  // ---------------------------------------------------------------- one level of a nest

  lemma NestKeys(pm: map<Path, Tree>, n: nat)
    requires Paths(pm, n)
    ensures Nest(pm, n).Keys == Heads(pm)
  {
    if h :| h in Heads(pm) {
      HeadIsValid(pm, n, h);
    }
  }

  /** A value of the family, or a nest of the tails. */
  lemma NestLevel(pm: map<Path, Tree>, n: nat, h: string)
    requires Paths(pm, n)
    ensures h in Nest(pm, n) <==> h in Heads(pm)
    ensures h in Heads(pm) ==> ValidComponent(h) && n > 0
    ensures h in Heads(pm) && [h] in pm ==> Nest(pm, n)[h] == pm[[h]]
    ensures h in Heads(pm) && [h] !in pm ==>
      Nest(pm, n)[h] == Dir(Nest(Tails(pm, h), n - 1)) && Paths(Tails(pm, h), n - 1)
  {
    NestKeys(pm, n);
    if h in Heads(pm) {
      HeadIsValid(pm, n, h);
      TailsArePaths(pm, n, h);
    }
  }

  // ---------------------------------------------------------------- the same puts

  /** Some value of the family puts w below its path. */
  ghost predicate PutBelow(w: Pair, base: string, pm: map<Path, Tree>) {
    exists p :: p in pm && w in PutPairs(base + Join(p), pm[p])
  }

  ghost predicate PutBelowHead(w: Pair, base: string, pm: map<Path, Tree>, h: string) {
    exists p :: p in pm && p != [] && p[0] == h && w in PutPairs(base + Join(p), pm[p])
  }

  lemma {:induction false} PutPairsOfNest(base: string, pm: map<Path, Tree>, n: nat, w: Pair)
    requires CleanBase(base) && Paths(pm, n) && pm != map[]
    ensures w in PutPairs(base, Dir(Nest(pm, n))) <==> PutBelow(w, base, pm)
    decreases n, 1
  {
    var m := Nest(pm, n);
    SomeHead(pm, n);
    NestKeys(pm, n);
    forall h | h in m
      ensures JoinPath(base, h) == base + h
      ensures w in PutPairs(base + h, m[h]) <==> PutBelowHead(w, base, pm, h)
    {
      HeadIsValid(pm, n, h);
      ComponentIsKey(h);
      JoinPathAppends(base, h);
      PutPairsOfHead(base, pm, n, w, h);
    }
    PutsAtHeads(base, pm, n, m, w);
    DirPuts(base, m, w);
  }

  lemma SomeHead(pm: map<Path, Tree>, n: nat)
    requires Paths(pm, n) && pm != map[]
    ensures Heads(pm) != {}
  {
    var p :| p in pm;
    assert ValidPath(p, n);
    assert p[0] in Heads(pm);
  }

  lemma PutsAtHeads(base: string, pm: map<Path, Tree>, n: nat, m: map<string, Tree>, w: Pair)
    requires Paths(pm, n) && m.Keys == Heads(pm)
    requires forall h | h in m ::
      JoinPath(base, h) == base + h && (w in PutPairs(base + h, m[h]) <==> PutBelowHead(w, base, pm, h))
    ensures PutsAtKey(w, base, m) <==> PutBelow(w, base, pm)
  {
    if PutsAtKey(w, base, m) {
      var h :| h in m && w in PutPairs(JoinPath(base, h), m[h]);
      assert PutBelowHead(w, base, pm, h);
    }
    if PutBelow(w, base, pm) {
      var p :| p in pm && w in PutPairs(base + Join(p), pm[p]);
      assert ValidPath(p, n);
      PutHere(w, base, pm, p[0], p);
      assert p[0] in m;
    }
  }

  lemma {:induction false} PutPairsOfHead(base: string, pm: map<Path, Tree>, n: nat, w: Pair, h: string)
    requires CleanBase(base) && n > 0 && Paths(pm, n) && h in Heads(pm) && ValidComponent(h)
    ensures w in PutPairs(base + h, Nest(pm, n)[h]) <==> PutBelowHead(w, base, pm, h)
    decreases n, 0
  {
    NestLevel(pm, n, h);
    if [h] in pm {
      PutAtHead(base, pm, n, w, h);
    } else {
      var sub, tails := base + h + "/", Tails(pm, h);
      ComponentIsKey(h);
      CleanBaseBelow(base, h);
      SomeTail(pm, h);
      PutPairsOfNest(sub, tails, n - 1, w);
      SamePrefix(base + h, sub, Nest(tails, n - 1));
      PutBelowTails(base, pm, w, h);
    }
  }

  /** The head is a path of the family itself, and then the only one that begins with it. */
  lemma PutAtHead(base: string, pm: map<Path, Tree>, n: nat, w: Pair, h: string)
    requires Paths(pm, n) && [h] in pm
    ensures w in PutPairs(base + h, pm[[h]]) <==> PutBelowHead(w, base, pm, h)
  {
    assert Join([h]) == h;
    forall p | p in pm && p != [] && p[0] == h ensures p == [h] {
      assert !Clash([h], p);
      assert [h] <= p;
    }
    if w in PutPairs(base + h, pm[[h]]) {
      PutHere(w, base, pm, h, [h]);
    }
  }

  lemma SomeTail(pm: map<Path, Tree>, h: string)
    requires h in Heads(pm) && [h] !in pm
    ensures Tails(pm, h) != map[]
  {
    var p :| p in pm && p != [] && p[0] == h;
    assert p == [h] + p[1..] && p != [h];
    TailsHave(pm, h, p[1..]);
  }

  lemma SamePrefix(prefix: string, prefix': string, m: map<string, Tree>)
    requires WithSlash(prefix) == WithSlash(prefix')
    ensures PutPairs(prefix, Dir(m)) == PutPairs(prefix', Dir(m))
  {
  }

  lemma TailKey(base: string, h: string, r: Path)
    requires r != []
    ensures base + h + "/" + Join(r) == base + Join([h] + r)
  {
    assert ([h] + r)[1..] == r && Join([h] + r) == h + "/" + Join(r);
  }

  lemma TailPuts(base: string, pm: map<Path, Tree>, w: Pair, h: string, r: Path)
    requires r in Tails(pm, h)
    ensures [h] + r in pm
    ensures w in PutPairs(base + h + "/" + Join(r), Tails(pm, h)[r]) <==>
      w in PutPairs(base + Join([h] + r), pm[[h] + r])
  {
    TailsHave(pm, h, r);
    TailKey(base, h, r);
  }

  lemma PutBelowTails(base: string, pm: map<Path, Tree>, w: Pair, h: string)
    requires [h] !in pm
    ensures PutBelow(w, base + h + "/", Tails(pm, h)) <==> PutBelowHead(w, base, pm, h)
  {
    if PutBelow(w, base + h + "/", Tails(pm, h)) {
      FromTail(base, pm, w, h);
    }
    if PutBelowHead(w, base, pm, h) {
      ToTail(base, pm, w, h);
    }
  }

  lemma FromTail(base: string, pm: map<Path, Tree>, w: Pair, h: string)
    requires PutBelow(w, base + h + "/", Tails(pm, h))
    ensures PutBelowHead(w, base, pm, h)
  {
    var r :| r in Tails(pm, h) && w in PutPairs(base + h + "/" + Join(r), Tails(pm, h)[r]);
    TailPuts(base, pm, w, h, r);
    PutHere(w, base, pm, h, [h] + r);
  }

  lemma ToTail(base: string, pm: map<Path, Tree>, w: Pair, h: string)
    requires [h] !in pm && PutBelowHead(w, base, pm, h)
    ensures PutBelow(w, base + h + "/", Tails(pm, h))
  {
    var p :| p in pm && p != [] && p[0] == h && w in PutPairs(base + Join(p), pm[p]);
    var r := p[1..];
    assert p == [h] + r && p != [h];
    TailsHave(pm, h, r);
    TailPuts(base, pm, w, h, r);
  }

  lemma PutHere(w: Pair, base: string, pm: map<Path, Tree>, h: string, p: Path)
    requires p in pm && p != [] && p[0] == h && w in PutPairs(base + Join(p), pm[p])
    ensures PutBelowHead(w, base, pm, h)
  {
  }

  lemma NestPutsBelow(prefix: string, pm: map<Path, Tree>, n: nat, w: Pair)
    requires CleanBase(WithSlash(prefix)) && Paths(pm, n) && pm != map[]
    ensures w in PutPairs(prefix, Dir(Nest(pm, n))) <==> PutBelow(w, WithSlash(prefix), pm)
  {
    PutPairsOfNest(WithSlash(prefix), pm, n, w);
    SamePrefix(prefix, WithSlash(prefix), Nest(pm, n));
  }

  // ---------------------------------------------------------------- valid trees

  predicate EndsPlain(p: Path) {
    p != [] && p[|p| - 1] != "" && p[|p| - 1][|p[|p| - 1]| - 1] != ' '
  }

  lemma {:induction false} JoinEndsAsLast(p: Path)
    requires p != [] && p[|p| - 1] != ""
    ensures Join(p) != "" && Join(p)[|Join(p)| - 1] == p[|p| - 1][|p[|p| - 1]| - 1]
  {
    if |p| > 1 {
      assert p[1..][|p| - 2] == p[|p| - 1];
      JoinEndsAsLast(p[1..]);
    }
  }

  lemma LastIsValid(k: string, p: Path)
    requires ValidKey(k) && p == Split(k)
    ensures p != [] && p[|p| - 1] != ""
  {
    assert p[|p| - 1] in p;
    assert ValidComponent(p[|p| - 1]);
  }

  lemma EndsAsJoin(p: Path, k: string)
    requires p != [] && p[|p| - 1] != "" && Join(p) == k && k != "" && k[|k| - 1] != ' '
    ensures EndsPlain(p)
  {
    JoinEndsAsLast(p);
  }

  lemma KeyEndsAsPath(k: string)
    requires ValidKey(k) && k != "" && k[|k| - 1] != ' '
    ensures EndsPlain(Split(k))
  {
    LastIsValid(k, Split(k));
    JoinOfSplit(k);
    EndsAsJoin(Split(k), k);
  }

  predicate ChildIsValid(k: string, t: Tree) {
    ValidComponent(k) && (t.Scalar? ==> k[|k| - 1] != ' ') && Valid(t)
  }

  predicate PathIsValid(p: Path, t: Tree) {
    Valid(t) && (t.Scalar? ==> EndsPlain(p))
  }

  lemma TailsAreValid(pm: map<Path, Tree>, h: string)
    requires forall p | p in pm :: PathIsValid(p, pm[p])
    ensures forall r | r in Tails(pm, h) :: PathIsValid(r, Tails(pm, h)[r])
  {
    forall r | r in Tails(pm, h) ensures PathIsValid(r, Tails(pm, h)[r]) {
      TailsHave(pm, h, r);
      assert PathIsValid([h] + r, pm[[h] + r]);
      assert ([h] + r)[|r|] == r[|r| - 1];
    }
  }

  lemma {:induction false} NestIsValid(pm: map<Path, Tree>, n: nat)
    requires Paths(pm, n) && forall p | p in pm :: PathIsValid(p, pm[p])
    ensures Valid(Dir(Nest(pm, n)))
    decreases n
  {
    var m := Nest(pm, n);
    forall h | h in m ensures ChildIsValid(h, m[h]) {
      NestLevel(pm, n, h);
      if [h] in pm {
        assert PathIsValid([h], pm[[h]]);
      } else {
        TailsAreValid(pm, h);
        NestIsValid(Tails(pm, h), n - 1);
      }
    }
    DirIsValid(m);
  }

  lemma DirIsValid(m: map<string, Tree>)
    requires forall k | k in m :: ChildIsValid(k, m[k])
    ensures Valid(Dir(m))
  {
    assert forall k | k in m :: ChildIsValid(k, m[k]) ==>
      ValidComponent(k) && (m[k].Scalar? ==> k[|k| - 1] != ' ') && Valid(m[k]);
  }

  // ---------------------------------------------------------------- long slices

  ghost predicate AllFit(pm: map<Path, Tree>) {
    forall p | p in pm :: Fits(pm[p])
  }

  /** The slices of a nested map are those of its values. */
  lemma {:induction false} NestFits(pm: map<Path, Tree>, n: nat)
    requires Paths(pm, n)
    ensures Fits(Dir(Nest(pm, n))) <==> AllFit(pm)
    decreases n
  {
    var m := Nest(pm, n);
    forall h | h in m ensures Fits(m[h]) <==> HeadFits(pm, h) {
      NestLevel(pm, n, h);
      if [h] in pm {
        OnlyHead(pm, n, h);
      } else {
        NestFits(Tails(pm, h), n - 1);
        TailsFit(pm, h);
      }
    }
    NestKeys(pm, n);
    HeadsFit(pm, n);
    assert Fits(Dir(m)) <==> forall h | h in m :: Fits(m[h]);
  }

  ghost predicate HeadFits(pm: map<Path, Tree>, h: string) {
    forall p | p in pm && p != [] && p[0] == h :: Fits(pm[p])
  }

  lemma HeadsFit(pm: map<Path, Tree>, n: nat)
    requires Paths(pm, n)
    ensures AllFit(pm) <==> forall h | h in Heads(pm) :: HeadFits(pm, h)
  {
    if forall h | h in Heads(pm) :: HeadFits(pm, h) {
      forall p | p in pm ensures Fits(pm[p]) {
        assert ValidPath(p, n);
        assert p[0] in Heads(pm);
        assert HeadFits(pm, p[0]);
      }
    }
  }

  lemma OnlyHead(pm: map<Path, Tree>, n: nat, h: string)
    requires Paths(pm, n) && [h] in pm
    ensures HeadFits(pm, h) <==> Fits(pm[[h]])
  {
    forall p | p in pm && p != [] && p[0] == h ensures p == [h] {
      assert !Clash([h], p);
      assert [h] <= p;
    }
  }

  lemma TailsFit(pm: map<Path, Tree>, h: string)
    requires [h] !in pm
    ensures AllFit(Tails(pm, h)) <==> HeadFits(pm, h)
  {
    if AllFit(Tails(pm, h)) {
      forall p | p in pm && p != [] && p[0] == h ensures Fits(pm[p]) {
        assert p == [h] + p[1..] && p != [h];
        TailsHave(pm, h, p[1..]);
      }
    }
    if HeadFits(pm, h) {
      forall r | r in Tails(pm, h) ensures Fits(Tails(pm, h)[r]) {
        TailsHave(pm, h, r);
        assert ([h] + r)[0] == h;
      }
    }
  }

  // ---------------------------------------------------------------- what is found at a path

  /** What a chain of map lookups finds. */
  function Lookup(t: Tree, p: Path): Parsed<Tree> {
    if p == [] then Parsed(t) else if t.Dir? && p[0] in t.m then Lookup(t.m[p[0]], p[1..]) else Failed
  }

  /** The same as Paths, stated for proofs that follow one path at a time. */
  ghost predicate Family(pm: map<Path, Tree>, n: nat) {
    && (forall p {:trigger ValidPath(p, n)} | p in pm :: ValidPath(p, n))
    && forall p, q {:trigger Clash(p, q)} | p in pm && q in pm :: !Clash(p, q)
  }

  lemma FamilyIsPaths(pm: map<Path, Tree>, n: nat)
    ensures Family(pm, n) <==> Paths(pm, n)
  {
  }

  lemma TailsAreFamily(pm: map<Path, Tree>, n: nat, h: string)
    requires n > 0 && Family(pm, n)
    ensures Family(Tails(pm, h), n - 1)
  {
    FamilyIsPaths(pm, n);
    TailsArePaths(pm, n, h);
    FamilyIsPaths(Tails(pm, h), n - 1);
  }

  /** The tree found at a path of the family is its value. */
  predicate Finds(m: map<string, Tree>, p: Path, t: Tree) {
    Lookup(Dir(m), p) == Parsed(t)
  }

  lemma {:induction false} NestLookup(pm: map<Path, Tree>, n: nat, p: Path)
    requires Family(pm, n) && p in pm
    ensures Finds(Nest(pm, n), p, pm[p])
    decreases n
  {
    PathIsNonEmpty(pm, n, p);
    if |p| == 1 {
      NestHere(pm, n, p);
    } else {
      var tails, r := Descend(pm, n, p);
      NestLookup(tails, n - 1, r);
    }
  }

  /** What is found at the rest of the path below its head is found at the path. */
  lemma Descend(pm: map<Path, Tree>, n: nat, p: Path) returns (tails: map<Path, Tree>, r: Path)
    requires n > 0 && Family(pm, n) && p in pm && |p| > 1
    ensures Family(tails, n - 1) && r in tails && tails[r] == pm[p]
    ensures Finds(Nest(tails, n - 1), r, pm[p]) ==> Finds(Nest(pm, n), p, pm[p])
  {
    tails, r := Tails(pm, p[0]), p[1..];
    TailIsThere(pm, n, p);
    NestBelow(pm, n, p, pm[p]);
  }

  lemma PathIsNonEmpty(pm: map<Path, Tree>, n: nat, p: Path)
    requires Family(pm, n) && p in pm
    ensures p != [] && n > 0
  {
    assert ValidPath(p, n);
  }

  lemma NestHere(pm: map<Path, Tree>, n: nat, p: Path)
    requires Family(pm, n) && p in pm && |p| == 1
    ensures Finds(Nest(pm, n), p, pm[p])
  {
    PathIsNonEmpty(pm, n, p);
    assert [p[0]] == p;
    assert p[0] in Heads(pm);
    NestLevel(pm, n, p[0]);
    FindsHere(Nest(pm, n), p, pm[p]);
  }

  lemma NestBelow(pm: map<Path, Tree>, n: nat, p: Path, t: Tree)
    requires n > 0 && Family(pm, n) && p in pm && |p| > 1
    ensures Finds(Nest(Tails(pm, p[0]), n - 1), p[1..], t) ==> Finds(Nest(pm, n), p, t)
  {
    NotAlone(pm, n, p);
    NestOfHead(pm, n, p, p[0]);
    if Finds(Nest(Tails(pm, p[0]), n - 1), p[1..], t) {
      FindsBelow(Nest(pm, n), p, Nest(Tails(pm, p[0]), n - 1), t);
    }
  }

  lemma NestOfHead(pm: map<Path, Tree>, n: nat, p: Path, h: string)
    requires n > 0 && p in pm && p != [] && p[0] == h && [h] !in pm
    ensures h in Nest(pm, n) && Nest(pm, n)[h] == Dir(Nest(Tails(pm, h), n - 1))
  {
    assert h in Heads(pm);
  }

  lemma TailIsThere(pm: map<Path, Tree>, n: nat, p: Path)
    requires n > 0 && Family(pm, n) && p in pm && |p| > 1
    ensures Family(Tails(pm, p[0]), n - 1) && p[1..] in Tails(pm, p[0]) && Tails(pm, p[0])[p[1..]] == pm[p]
  {
    TailsAreFamily(pm, n, p[0]);
    TailOfPath(pm, p);
  }

  lemma TailOfPath(pm: map<Path, Tree>, p: Path)
    requires p in pm && |p| > 1
    ensures p[1..] in Tails(pm, p[0]) && Tails(pm, p[0])[p[1..]] == pm[p]
  {
    TailsHave(pm, p[0], p[1..]);
    assert p == [p[0]] + p[1..];
  }

  lemma NotAlone(pm: map<Path, Tree>, n: nat, p: Path)
    requires Family(pm, n) && p in pm && |p| > 1
    ensures [p[0]] !in pm
  {
    assert [p[0]] in pm ==> !Clash([p[0]], p);
    assert p[..1] == [p[0]];
  }

  lemma FindsHere(m: map<string, Tree>, p: Path, t: Tree)
    requires |p| == 1 && p[0] in m && m[p[0]] == t
    ensures Finds(m, p, t)
  {
  }

  lemma FindsBelow(m: map<string, Tree>, p: Path, sub: map<string, Tree>, t: Tree)
    requires |p| > 1 && p[0] in m && m[p[0]] == Dir(sub) && Finds(sub, p[1..], t)
    ensures Finds(m, p, t)
  {
  }
}
