/** path.Clean and path.Join of the Go standard library, and when joining a key to a prefix only
    puts the two side by side. */
module GoPath {
  import opened Strings

  /** One pass over the components: empty and "." elements go, ".." takes the element before it,
      and a ".." at the root goes as well. */
  function Resolve(cs: Path, rooted: bool, acc: Path): Path {
    if cs == [] then acc
    else if cs[0] == "" || cs[0] == "." then Resolve(cs[1..], rooted, acc)
    else if cs[0] != ".." then Resolve(cs[1..], rooted, acc + [cs[0]])
    else if acc != [] && acc[|acc| - 1] != ".." then Resolve(cs[1..], rooted, acc[..|acc| - 1])
    else if rooted then Resolve(cs[1..], rooted, acc)
    else Resolve(cs[1..], rooted, acc + [".."])
  }

  predicate Rooted(p: string) {
    p != "" && p[0] == '/'
  }

  function Clean(p: string): string {
    var out := (if Rooted(p) then "/" else "") + Join(Resolve(Split(p), Rooted(p), []));
    if out == "" then "." else out
  }

  /** path.Join(a, b): empty elements are ignored. */
  function JoinPath(a: string, b: string): string {
    if a == "" && b == "" then "" else if a == "" then Clean(b) else if b == "" then Clean(a) else Clean(a + "/" + b)
  }

  predicate ValidComponent(c: string) {
    c != "" && c != "." && c != ".." && '/' !in c
  }

  /** The components of a key as a map may use it: one of them, or several separated by slashes. */
  predicate ValidKey(key: string) {
    forall c | c in Split(key) :: ValidComponent(c)
  }

  /** A prefix with its trailing slash to which path.Join can only append. */
  predicate CleanBase(base: string) {
    && HasSuffixSlash(base)
    && var p := base[..|base| - 1];
       p == "" || (Clean(p) == p && p != "." && p != "/")
  }

  // ---------------------------------------------------------------- what cleaning keeps

  /** The directory that a path leads to: "" and "." stay, ".." goes up, and up from the root is the
      root. */
  function Walk(dir: Path, cs: Path): Path
    decreases |cs|
  {
    if cs == [] then dir
    else if cs[0] == "" || cs[0] == "." then Walk(dir, cs[1..])
    else if cs[0] != ".." then Walk(dir + [cs[0]], cs[1..])
    else Walk(if dir == [] then [] else dir[..|dir| - 1], cs[1..])
  }

  /** A resolved path: no "" and ".", and ".." only in front, if the path does not begin at the root. */
  predicate IsResolved(acc: Path, rooted: bool) {
    && (forall c | c in acc :: c != "" && c != "." && '/' !in c)
    && forall i | 0 <= i < |acc| && acc[i] == ".." :: !rooted && (i > 0 ==> acc[i - 1] == "..")
  }

  lemma {:induction false} WalkOfAppend(dir: Path, cs: Path, c: string)
    ensures Walk(dir, cs + [c]) == Walk(Walk(dir, cs), [c])
    decreases |cs|
  {
    if cs == [] {
      assert cs + [c] == [c];
    } else {
      assert (cs + [c])[1..] == cs[1..] + [c];
      var next := if cs[0] == "" || cs[0] == "." then dir else if cs[0] != ".." then dir + [cs[0]]
        else if dir == [] then [] else dir[..|dir| - 1];
      WalkOfAppend(next, cs[1..], c);
    }
  }

  lemma WalkOneMore(dir: Path, acc: Path, c: string)
    requires c != "" && c != "."
    ensures c != ".." ==> Walk(dir, acc + [c]) == Walk(dir, acc) + [c]
    ensures var at := Walk(dir, acc);
      c == ".." ==> Walk(dir, acc + [c]) == if at == [] then [] else at[..|at| - 1]
  {
    WalkOfAppend(dir, acc, c);
    assert [c][1..] == [];
  }

  lemma WalkUp(dir: Path, acc: Path, rooted: bool)
    requires acc != [] && IsResolved(acc, rooted) && acc[|acc| - 1] != ".."
    ensures Walk(dir, acc) != [] && Walk(dir, acc)[..|Walk(dir, acc)| - 1] == Walk(dir, acc[..|acc| - 1])
  {
    assert acc == acc[..|acc| - 1] + [acc[|acc| - 1]];
    assert acc[|acc| - 1] in acc;
    WalkOneMore(dir, acc[..|acc| - 1], acc[|acc| - 1]);
  }

  lemma ResolvedFront(acc: Path, rooted: bool)
    requires IsResolved(acc, rooted) && acc != []
    ensures IsResolved(acc[..|acc| - 1], rooted)
  {
    var front := acc[..|acc| - 1];
    forall c | c in front ensures c in acc {
    }
    assert forall i | 0 <= i < |front| :: front[i] == acc[i];
  }

  lemma {:induction false} ResolveLeadsTheSame(dir: Path, cs: Path, rooted: bool, acc: Path)
    requires IsResolved(acc, rooted) && (forall c | c in cs :: '/' !in c) && (rooted ==> dir == [])
    ensures IsResolved(Resolve(cs, rooted, acc), rooted)
    ensures Walk(dir, Resolve(cs, rooted, acc)) == Walk(Walk(dir, acc), cs)
    decreases |cs|
  {
    if cs != [] {
      var c, n := cs[0], |acc| - 1;
      if c == "" || c == "." {
        ResolveLeadsTheSame(dir, cs[1..], rooted, acc);
      } else if c != ".." {
        WalkOneMore(dir, acc, c);
        ResolveLeadsTheSame(dir, cs[1..], rooted, acc + [c]);
      } else if acc != [] && acc[n] != ".." {
        WalkUp(dir, acc, rooted);
        ResolvedFront(acc, rooted);
        ResolveLeadsTheSame(dir, cs[1..], rooted, acc[..n]);
      } else if rooted {
        assert acc == [];
        ResolveLeadsTheSame(dir, cs[1..], rooted, acc);
      } else {
        WalkOneMore(dir, acc, c);
        ResolveLeadsTheSame(dir, cs[1..], rooted, acc + [c]);
      }
    }
  }

  lemma ResolvedText(acc: Path)
    requires acc != [] && acc[0] != "" && forall c | c in acc :: '/' !in c
    ensures Join(acc) != "" && !Rooted(Join(acc)) && Split(Join(acc)) == acc && Split("/" + Join(acc)) == [""] + acc
  {
    assert acc[0] in acc;
    assert Join(acc)[0] == acc[0][0];
    SplitOfJoin(acc);
  }

  lemma WalkFromEmpty(dir: Path, acc: Path)
    ensures Walk(dir, [""] + acc) == Walk(dir, acc)
  {
    assert ([""] + acc)[1..] == acc;
  }

  /** Nothing is left to clean. */
  predicate IsCleaned(p: string) {
    p == "." || p == "/" || IsResolved(if Rooted(p) then Split(p)[1..] else Split(p), Rooted(p))
  }

  /** A cleaned path begins at the root if and only if the path does, leads to the same directory from
      wherever it begins, and has nothing left to clean. */
  lemma CleanLeadsTheSame(p: string, dir: Path)
    ensures Rooted(Clean(p)) == Rooted(p)
    ensures var from := if Rooted(p) then [] else dir; Walk(from, Split(Clean(p))) == Walk(from, Split(p))
    ensures IsCleaned(Clean(p))
  {
    var acc := Resolve(Split(p), Rooted(p), []);
    var from := if Rooted(p) then [] else dir;
    ResolveLeadsTheSame(from, Split(p), Rooted(p), []);
    if acc == [] {
      assert Clean(p) == if Rooted(p) then "/" else ".";
      NowhereLeadsBack(from);
    } else {
      assert acc[0] in acc;
      ResolvedText(acc);
      WalkFromEmpty(from, acc);
      assert Clean(p) == if Rooted(p) then "/" + Join(acc) else Join(acc);
    }
  }

  lemma NowhereLeadsBack(dir: Path)
    ensures Split(".") == ["."] && Split("/") == ["", ""]
    ensures Walk(dir, ["."]) == dir && Walk(dir, ["", ""]) == dir
  {
    SplitAtFirstSlash(".", "");
    SplitOfConcat("", "");
    assert Walk(dir, [""]) == Walk(dir, []) && ["", ""][1..] == [""];
  }

  lemma {:induction false} WalkOfConcat(dir: Path, a: Path, b: Path)
    ensures Walk(dir, a + b) == Walk(Walk(dir, a), b)
    decreases |b|
  {
    if b == [] {
      assert a + b == a;
    } else {
      WalkOfAppend(dir, a, b[0]);
      assert a + b == (a + [b[0]]) + b[1..];
      WalkOfConcat(dir, a + [b[0]], b[1..]);
      WalkFirst(Walk(dir, a), b);
    }
  }

  lemma WalkFirst(dir: Path, b: Path)
    requires b != []
    ensures Walk(dir, b) == Walk(Walk(dir, [b[0]]), b[1..])
  {
    assert [b[0]][1..] == [];
  }

  /** Joined paths lead to where the second one leads from where the first one does, and nothing is left
      to clean in them. */
  lemma JoinLeadsThere(a: string, b: string, dir: Path)
    requires a != ""
    ensures Rooted(JoinPath(a, b)) == Rooted(a) && IsCleaned(JoinPath(a, b))
    ensures var from := if Rooted(a) then [] else dir;
      Walk(from, Split(JoinPath(a, b))) == Walk(Walk(from, Split(a)), Split(b))
  {
    var from := if Rooted(a) then [] else dir;
    if b == "" {
      CleanLeadsTheSame(a, dir);
      assert Walk(Walk(from, Split(a)), [""]) == Walk(from, Split(a));
    } else {
      CleanLeadsTheSame(a + "/" + b, dir);
      SplitOfConcat(a, b);
      WalkOfConcat(from, Split(a), Split(b));
    }
  }

  /** An empty first path is as if it were not there. */
  lemma JoinOfNothing(b: string, dir: Path)
    requires b != ""
    ensures Rooted(JoinPath("", b)) == Rooted(b) && IsCleaned(JoinPath("", b))
    ensures var from := if Rooted(b) then [] else dir; Walk(from, Split(JoinPath("", b))) == Walk(from, Split(b))
  {
    CleanLeadsTheSame(b, dir);
  }

  // ---------------------------------------------------------------- joining below a clean prefix

  lemma {:induction false} ResolveOfConcat(a: Path, b: Path, rooted: bool, acc: Path)
    ensures Resolve(a + b, rooted, acc) == Resolve(b, rooted, Resolve(a, rooted, acc))
    decreases |a|
  {
    if a == [] {
      assert a + b == b;
    } else {
      assert (a + b)[1..] == a[1..] + b;
      if a[0] == "" || a[0] == "." {
        ResolveOfConcat(a[1..], b, rooted, acc);
      } else if a[0] != ".." {
        ResolveOfConcat(a[1..], b, rooted, acc + [a[0]]);
      } else if acc != [] && acc[|acc| - 1] != ".." {
        ResolveOfConcat(a[1..], b, rooted, acc[..|acc| - 1]);
      } else if rooted {
        ResolveOfConcat(a[1..], b, rooted, acc);
      } else {
        ResolveOfConcat(a[1..], b, rooted, acc + [".."]);
      }
    }
  }

  lemma {:induction false} ResolveOfValid(cs: Path, rooted: bool, acc: Path)
    requires forall c | c in cs :: ValidComponent(c)
    ensures Resolve(cs, rooted, acc) == acc + cs
  {
    if cs == [] {
      assert acc + cs == acc;
    } else {
      assert ValidComponent(cs[0]);
      ResolveOfValid(cs[1..], rooted, acc + [cs[0]]);
      assert acc + [cs[0]] + cs[1..] == acc + cs;
    }
  }

  /** What is left of prefix, slash and key: the components of the prefix and then those of the key. */
  lemma ResolveBelow(p: string, key: string, rooted: bool)
    requires ValidKey(key)
    ensures Resolve(Split(p + "/" + "/" + key), rooted, []) == Resolve(Split(p), rooted, []) + Split(key)
  {
    assert p + "/" + "/" + key == p + "/" + ("" + "/" + key);
    SplitOfConcat(p, "" + "/" + key);
    SplitOfConcat("", key);
    var tail := [""] + Split(key);
    ResolveOfConcat(Split(p), tail, rooted, []);
    assert tail[1..] == Split(key);
    ResolveOfValid(Split(key), rooted, Resolve(Split(p), rooted, []));
  }

  lemma ValidKeyNonEmpty(key: string)
    requires ValidKey(key)
    ensures key != ""
  {
    assert ValidComponent(Split(key)[0]);
  }

  lemma JoinWithFront(acc: Path, key: string, rooted: bool)
    requires key != "" && Split(key) != []
    ensures (if rooted then "/" else "") + Join(acc + Split(key)) == Front(acc, rooted) + key
  {
    JoinOfSplit(key);
    if acc == [] {
      assert acc + Split(key) == Split(key);
    } else {
      JoinOfAppend(acc, Split(key));
      assert Join(acc + Split(key)) == Join(acc) + "/" + key;
    }
  }

  /** A path that resolves to acc and then the components of a key. */
  lemma CleanOfResolved(whole: string, acc: Path, key: string)
    requires ValidKey(key) && Resolve(Split(whole), Rooted(whole), []) == acc + Split(key)
    ensures Clean(whole) == Front(acc, Rooted(whole)) + key
  {
    ValidKeyNonEmpty(key);
    JoinWithFront(acc, key, Rooted(whole));
  }

  function Front(acc: Path, rooted: bool): string {
    (if rooted then "/" else "") + (if acc == [] then "" else Join(acc) + "/")
  }

  lemma CleanPrefixResolved(base: string)
    requires CleanBase(base)
    ensures var p := base[..|base| - 1];
      Front(Resolve(Split(p), Rooted(base), []), Rooted(base)) == base
  {
    var p := base[..|base| - 1];
    assert base == p + "/";
    if p == "" {
      assert Split(p) == [""];
      assert Resolve([""], true, []) == Resolve([], true, []) == [];
    } else {
      var acc := Resolve(Split(p), Rooted(p), []);
      assert p == (if Rooted(p) then "/" else "") + Join(acc);
      assert acc != [];
    }
  }

  /** Below a clean prefix, path.Join of a valid key is plain concatenation. */
  lemma JoinPathAppends(base: string, key: string)
    requires CleanBase(base) && ValidKey(key)
    ensures JoinPath(base, key) == base + key
  {
    ValidKeyNonEmpty(key);
    var p, whole := base[..|base| - 1], base + "/" + key;
    assert base == p + "/" && whole == p + "/" + "/" + key;
    ResolveBelow(p, key, Rooted(whole));
    CleanOfResolved(whole, Resolve(Split(p), Rooted(whole), []), key);
    CleanPrefixResolved(base);
  }

  lemma CleanOfBelow(base: string, key: string)
    requires CleanBase(base) && ValidKey(key)
    ensures Clean(base + key) == base + key
  {
    var p, whole := base[..|base| - 1], base + key;
    assert base == p + "/" && whole == p + "/" + key;
    SplitOfConcat(p, key);
    var acc := Resolve(Split(p), Rooted(whole), []);
    ResolveOfConcat(Split(p), Split(key), Rooted(whole), []);
    ResolveOfValid(Split(key), Rooted(whole), acc);
    CleanOfResolved(whole, acc, key);
    CleanPrefixResolved(base);
  }

  lemma WithSlashIsCleanBase(whole: string)
    requires Clean(whole) == whole && |whole| >= 2 && whole[|whole| - 1] != '/'
    ensures CleanBase(whole + "/") && WithSlash(whole) == whole + "/"
  {
    assert (whole + "/")[..|whole|] == whole;
  }

  /** The key below a clean prefix is a clean prefix again. */
  lemma CleanBaseBelow(base: string, key: string)
    requires CleanBase(base) && ValidKey(key)
    ensures CleanBase(base + key + "/") && WithSlash(base + key) == base + key + "/"
  {
    KeyEndsPlain(key);
    CleanOfBelow(base, key);
    assert |base| >= 1;
    WithSlashIsCleanBase(base + key);
  }

  lemma KeyEndsPlain(key: string)
    requires ValidKey(key)
    ensures key != "" && key[|key| - 1] != '/'
  {
    ValidKeyNonEmpty(key);
    var last := Split(key)[|Split(key)| - 1];
    assert ValidComponent(last);
    var n := |key| - 1;
    if key[n] == '/' {
      assert key == key[..n] + "/" + "";
      SplitOfConcat(key[..n], "");
      assert false;
    }
  }

  lemma ComponentIsKey(c: string)
    requires ValidComponent(c)
    ensures ValidKey(c) && Split(c) == [c]
  {
    SplitAtFirstSlash(c, "");
  }
}
