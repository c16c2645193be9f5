/** The string operations of the Go standard library that the key-value codec is built on:
    splitting and joining at slashes, prefixes, trimming of blanks and the byte order in which
    Consul lists its keys. */
module Strings {

  /** A key cut at its slashes; a trailing "" component stands for a trailing slash. */
  type Path = seq<string>

  // ---------------------------------------------------------------- split and join

  /** strings.Split(s, "/") */
  function Split(s: string): (cs: Path)
    ensures |cs| > 0
    ensures forall c | c in cs :: '/' !in c
  {
    if s == "" then
      [""]
    else if s[0] == '/' then
      [""] + Split(s[1..])
    else
      var rest := Split(s[1..]);
      [[s[0]] + rest[0]] + rest[1..]
  }

  function Join(cs: Path): string {
    if cs == [] then "" else if |cs| == 1 then cs[0] else cs[0] + "/" + Join(cs[1..])
  }

  lemma {:induction false} JoinOfSplit(s: string)
    ensures Join(Split(s)) == s
  {
    if s == "" {
    } else if s[0] == '/' {
      JoinOfSplit(s[1..]);
      assert ([""] + Split(s[1..]))[1..] == Split(s[1..]);
    } else {
      var rest := Split(s[1..]);
      var cs := [[s[0]] + rest[0]] + rest[1..];
      JoinOfSplit(s[1..]);
      assert cs[1..] == rest[1..];
    }
  }

  /** A component without slashes in front of the first slash comes back whole. */
  lemma {:induction false} SplitAtFirstSlash(c: string, rest: string)
    requires '/' !in c
    ensures Split(c) == [c]
    ensures Split(c + "/" + rest) == [c] + Split(rest)
  {
    if c == "" {
      assert ("" + "/" + rest)[1..] == rest;
    } else {
      SplitAtFirstSlash(c[1..], rest);
      assert (c + "/" + rest)[1..] == c[1..] + "/" + rest;
      assert [c[0]] + c[1..] == c;
    }
  }

  lemma {:induction false} SplitOfJoin(cs: Path)
    requires cs != [] && forall c | c in cs :: '/' !in c
    ensures Split(Join(cs)) == cs
  {
    SplitAtFirstSlash(cs[0], Join(cs[1..]));
    if |cs| > 1 {
      SplitOfJoin(cs[1..]);
      assert [cs[0]] + cs[1..] == cs;
    }
  }

  lemma {:induction false} JoinOfAppend(a: Path, b: Path)
    requires a != [] && b != []
    ensures Join(a + b) == Join(a) + "/" + Join(b)
  {
    if |a| == 1 {
      assert (a + b)[1..] == b;
    } else {
      JoinOfAppend(a[1..], b);
      assert (a + b)[1..] == a[1..] + b;
    }
  }

  lemma SplitOfConcat(s: string, t: string)
    ensures Split(s + "/" + t) == Split(s) + Split(t)
  {
    JoinOfSplit(s);
    JoinOfSplit(t);
    JoinOfAppend(Split(s), Split(t));
    SplitOfJoin(Split(s) + Split(t));
  }

  // ---------------------------------------------------------------- prefixes and blanks

  predicate HasSuffixSlash(s: string) {
    s != "" && s[|s| - 1] == '/'
  }

  /** The prefix with exactly the slash that PutMap, putSlice and ListMap append when it is missing. */
  function WithSlash(s: string): string {
    if HasSuffixSlash(s) then s else s + "/"
  }

  /** strings.TrimPrefix(s, prefix) */
  function TrimPrefix(s: string, prefix: string): string {
    if prefix <= s then s[|prefix|..] else s
  }

  function TrimLeft(s: string): string {
    if s != "" && s[0] == ' ' then TrimLeft(s[1..]) else s
  }

  function TrimRight(s: string): string {
    if s != "" && s[|s| - 1] == ' ' then TrimRight(s[..|s| - 1]) else s
  }

  /** strings.Trim(s, " ") */
  function TrimBlanks(s: string): string {
    TrimRight(TrimLeft(s))
  }

  predicate AllBlank(s: string) {
    forall i | 0 <= i < |s| :: s[i] == ' '
  }

  lemma {:induction false} TrimLeftDropsBlanks(s: string) returns (n: nat)
    ensures n <= |s| && AllBlank(s[..n]) && TrimLeft(s) == s[n..]
    ensures s[n..] != "" ==> s[n] != ' '
  {
    n := 0;
    if s != "" && s[0] == ' ' {
      n := TrimLeftDropsBlanks(s[1..]);
      n := n + 1;
    }
  }

  lemma {:induction false} TrimRightDropsBlanks(s: string) returns (n: nat)
    ensures n <= |s| && AllBlank(s[n..]) && TrimRight(s) == s[..n]
    ensures n > 0 ==> s[n - 1] != ' '
  {
    n := |s|;
    if s != "" && s[|s| - 1] == ' ' {
      var front := s[..|s| - 1];
      n := TrimRightDropsBlanks(front);
      assert s[n..] == front[n..] + " ";
    }
  }

  /** Blanks, and only blanks, go at both ends, and all of them. */
  lemma TrimmedIsBetweenBlanks(s: string) returns (i: nat, j: nat)
    ensures i <= j <= |s| && AllBlank(s[..i]) && AllBlank(s[j..]) && TrimBlanks(s) == s[i..j]
    ensures i < j ==> s[i] != ' ' && s[j - 1] != ' '
  {
    i := TrimLeftDropsBlanks(s);
    var n := TrimRightDropsBlanks(s[i..]);
    j := i + n;
    assert s[j..] == s[i..][n..] && s[i..j] == s[i..][..n];
    if n > 0 {
      assert s[j - 1] == s[i..][n - 1];
    }
  }

  lemma {:induction false} TrimLeftOfBlanks(left: string, s: string)
    requires AllBlank(left)
    ensures TrimLeft(left + s) == TrimLeft(s)
  {
    if left == "" {
      assert left + s == s;
    } else {
      TrimLeftOfBlanks(left[1..], s);
      assert (left + s)[1..] == left[1..] + s;
    }
  }

  lemma {:induction false} TrimRightOfBlanks(s: string, right: string)
    requires AllBlank(right)
    ensures TrimRight(s + right) == TrimRight(s)
  {
    if right == "" {
      assert s + right == s;
    } else {
      var n := |right| - 1;
      TrimRightOfBlanks(s, right[..n]);
      assert (s + right)[..|s| + n] == s + right[..n];
    }
  }

  lemma {:induction false} TrimLeftBefore(s: string, right: string)
    requires AllBlank(right)
    ensures TrimRight(TrimLeft(s + right)) == TrimRight(TrimLeft(s))
  {
    if s == "" {
      TrimLeftOfBlanks(right, "");
      assert s + right == right + "";
    } else if s[0] == ' ' {
      TrimLeftBefore(s[1..], right);
      assert (s + right)[1..] == s[1..] + right;
    } else {
      TrimRightOfBlanks(s, right);
    }
  }

  /** Blanks around a text do not matter. */
  lemma TrimOfBlanks(left: string, s: string, right: string)
    requires AllBlank(left) && AllBlank(right)
    ensures TrimBlanks(left + s + right) == TrimBlanks(s)
  {
    TrimLeftBefore(left + s, right);
    TrimLeftOfBlanks(left, s);
  }

  // ---------------------------------------------------------------- key order

  /** The order of Go strings and of Consul listings: by characters, a proper prefix first. */
  predicate Less(a: string, b: string) {
    b != "" && (a == "" || a[0] < b[0] || (a[0] == b[0] && Less(a[1..], b[1..])))
  }

  lemma {:induction false} LessIrreflexive(a: string)
    ensures !Less(a, a)
  {
    if a != "" {
      LessIrreflexive(a[1..]);
    }
  }

  lemma {:induction false} LessTransitive(a: string, b: string, c: string)
    requires Less(a, b) && Less(b, c)
    ensures Less(a, c)
  {
    if a != "" && a[0] == b[0] && b[0] == c[0] {
      LessTransitive(a[1..], b[1..], c[1..]);
    }
  }

  lemma {:induction false} LessTotal(a: string, b: string)
    ensures Less(a, b) || a == b || Less(b, a)
  {
    if a != "" && b != "" && a[0] == b[0] {
      LessTotal(a[1..], b[1..]);
      assert [a[0]] + a[1..] == a && [b[0]] + b[1..] == b;
    }
  }

  lemma LessAsymmetric(a: string, b: string)
    requires Less(a, b)
    ensures !Less(b, a)
  {
    if Less(b, a) {
      LessTransitive(a, b, a);
      LessIrreflexive(a);
    }
  }

  /** A common prefix does not matter. */
  lemma {:induction false} LessAfterPrefix(p: string, a: string, b: string)
    ensures Less(p + a, p + b) <==> Less(a, b)
  {
    if p == "" {
      assert p + a == a && p + b == b;
    } else {
      LessAfterPrefix(p[1..], a, b);
      assert (p + a)[1..] == p[1..] + a && (p + b)[1..] == p[1..] + b;
    }
  }

  /** Strings that already differ within the first |a| characters compare as those do. */
  lemma {:induction false} LessByHead(a: string, b: string, x: string, y: string)
    requires |a| == |b| && Less(a, b)
    ensures Less(a + x, b + y)
  {
    assert a != "";
    assert (a + x)[0] == a[0] && (b + y)[0] == b[0];
    if a[0] == b[0] {
      LessByHead(a[1..], b[1..], x, y);
      assert (a + x)[1..] == a[1..] + x && (b + y)[1..] == b[1..] + y;
    }
  }
}
