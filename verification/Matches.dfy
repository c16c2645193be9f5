/** Reading key/value configuration text. The result becomes part of the data that agents keep in
    Consul, so what matters is also what is left of it after a round trip. */
module Matches {
  import opened Strings
  import opened Trees
  import opened Decoder
  import opened Writes
  import opened Consul
  import opened RoundTrip
  import opened Slashes
  import opened Identity

  /** The two groups of one match of the pattern. */
  datatype Match = Match(key: string, value: string)

  function Underscored(s: string): (r: string)
    ensures |r| == |s| && forall i | 0 <= i < |s| :: r[i] == if s[i] == ' ' then '_' else s[i]
  {
    seq(|s|, i requires 0 <= i < |s| => if s[i] == ' ' then '_' else s[i])
  }

  /** All values of a key, in the order of the text. */
  function ValuesOf(matches: seq<Match>, key: string): seq<string> {
    if matches == [] then []
    else
      var n := |matches| - 1;
      ValuesOf(matches[..n], key) + if Underscored(matches[n].key) == key then [matches[n].value] else []
  }

  function TextOf(value: string): Tree { Scalar(Str(value)) }

  function Texts(values: seq<string>): seq<Tree> {
    seq(|values|, i requires 0 <= i < |values| => TextOf(values[i]))
  }

  function Promoted(values: seq<string>): Tree {
    if |values| == 1 then TextOf(values[0]) else List(Texts(values))
  }

  /** The multimap: a key that occurs once has its value, one that occurs more often the list of all
      of them, and there are no other keys. */
  ghost predicate IsMultimap(m: map<string, Tree>, matches: seq<Match>) {
    forall key ::
      && (key in m <==> ValuesOf(matches, key) != [])
      && (key in m ==> m[key] == Promoted(ValuesOf(matches, key)))
  }

  method FindMatches(matches: seq<Match>) returns (configMap: map<string, Tree>)
    ensures IsMultimap(configMap, matches)
  {
    configMap := map[];
    for i := 0 to |matches|
      invariant IsMultimap(configMap, matches[..i])
    {
      assert matches[..i + 1][..i] == matches[..i];
      var key := Underscored(matches[i].key);
      ghost var before := ValuesOf(matches[..i], key);
      if key in configMap {
        match configMap[key] {
          case Scalar(_) => configMap := configMap[key := List([configMap[key]])];
          case _ =>
        }
        assert configMap[key] == List(Texts(before));
        configMap := configMap[key := List(configMap[key].items + [TextOf(matches[i].value)])];
        assert configMap[key].items == Texts(before + [matches[i].value]);
      } else {
        configMap := configMap[key := TextOf(matches[i].value)];
        assert before == [];
      }
    }
    assert matches[..|matches|] == matches;
  }

  predicate HasKey(matches: seq<Match>, key: string, i: nat) {
    i < |matches| && Underscored(matches[i].key) == key
  }

  /** The positions of the matches with the key among the first n: all of them, in the order of the
      text. */
  ghost predicate ArePositions(matches: seq<Match>, key: string, n: nat, positions: seq<nat>) {
    && (forall j | 0 <= j < |positions| :: positions[j] < n && HasKey(matches, key, positions[j]))
    && (forall j, j' | 0 <= j < j' < |positions| :: positions[j] < positions[j'])
    && forall i: nat | i < n && HasKey(matches, key, i) :: i in positions
  }

  predicate AreValuesAt(matches: seq<Match>, positions: seq<nat>, values: seq<string>) {
    && |values| == |positions|
    && forall j | 0 <= j < |positions| :: positions[j] < |matches| && matches[positions[j]].value == values[j]
  }

  lemma OneMorePosition(matches: seq<Match>, key: string, n: nat, positions: seq<nat>)
    requires n < |matches| && ArePositions(matches, key, n, positions) && HasKey(matches, key, n)
    ensures ArePositions(matches, key, n + 1, positions + [n])
  {
    var longer := positions + [n];
    assert forall j | 0 <= j < |positions| :: longer[j] == positions[j];
    forall i: nat | i < n + 1 && HasKey(matches, key, i) ensures i in longer {
      assert i < n ==> i in positions;
      assert longer[|positions|] == n;
    }
  }

  lemma {:induction false} ValuesInOrder(matches: seq<Match>, key: string, n: nat) returns (positions: seq<nat>)
    requires n <= |matches|
    ensures ArePositions(matches, key, n, positions) && AreValuesAt(matches, positions, ValuesOf(matches[..n], key))
  {
    positions := [];
    if n > 0 {
      assert matches[..n][..n - 1] == matches[..n - 1];
      positions := ValuesInOrder(matches, key, n - 1);
      if HasKey(matches, key, n - 1) {
        OneMorePosition(matches, key, n - 1, positions);
        positions := positions + [n - 1];
      }
    }
  }

  /** A key of the result has the value of its one match, or a list of which the j-th element is the
      value of the j-th match with the key. */
  lemma FoundInOrder(m: map<string, Tree>, matches: seq<Match>, key: string) returns (positions: seq<nat>)
    requires IsMultimap(m, matches) && key in m
    ensures ArePositions(matches, key, |matches|, positions)
    ensures |positions| == 1 ==> m[key] == Scalar(Str(matches[positions[0]].value))
    ensures |positions| != 1 ==> m[key].List? && |m[key].items| == |positions| > 1
    ensures |positions| != 1 ==>
      forall j | 0 <= j < |positions| :: m[key].items[j] == Scalar(Str(matches[positions[j]].value))
  {
    positions := ValuesInOrder(matches, key, |matches|);
    assert matches[..|matches|] == matches;
  }

  lemma {:induction false} ValueIsMatch(matches: seq<Match>, key: string, j: nat) returns (i: nat)
    requires j < |ValuesOf(matches, key)|
    ensures i < |matches| && Underscored(matches[i].key) == key && matches[i].value == ValuesOf(matches, key)[j]
  {
    var n := |matches| - 1;
    if j < |ValuesOf(matches[..n], key)| {
      i := ValueIsMatch(matches[..n], key, j);
    } else {
      i := n;
    }
  }

  /** Each match is one of the values of its key, and two matches of one key are two. */
  lemma {:induction false} MatchIsValue(matches: seq<Match>, i: nat)
    requires i < |matches|
    ensures var vs := ValuesOf(matches, Underscored(matches[i].key));
      matches[i].value in vs
      && ((exists j :: 0 <= j < |matches| && j != i && Underscored(matches[j].key) == Underscored(matches[i].key)) ==>
        |vs| > 1)
  {
    var n, key := |matches| - 1, Underscored(matches[i].key);
    if i < n {
      assert matches[..n][i] == matches[i];
      MatchIsValue(matches[..n], i);
      forall j | 0 <= j < n ensures matches[..n][j] == matches[j] {
      }
    } else if j :| 0 <= j < n && Underscored(matches[j].key) == key {
      MatchIsValue(matches[..n], j);
      assert matches[..n][j] == matches[j];
    }
  }

  /** No key occurs twice and no value is empty. */
  predicate Plain(matches: seq<Match>) {
    && (forall i, j | 0 <= i < j < |matches| :: Underscored(matches[i].key) != Underscored(matches[j].key))
    && forall i | 0 <= i < |matches| :: matches[i].value != ""
  }

  /** The lists that repeated keys make hold texts, and those are lost. */
  lemma ReloadedExactlyIfPlain(m: map<string, Tree>, matches: seq<Match>)
    requires IsMultimap(m, matches)
    ensures Faithful(Dir(m)) <==> Plain(matches)
  {
    if Faithful(Dir(m)) {
      forall i | 0 <= i < |matches|
        ensures |ValuesOf(matches, Underscored(matches[i].key))| == 1 && matches[i].value != ""
      {
        FaithfulValue(m, matches, i);
      }
      forall i, j | 0 <= i < j < |matches| ensures Underscored(matches[i].key) != Underscored(matches[j].key) {
        MatchIsValue(matches, i);
      }
    } else {
      var key :| key in m && (m[key] == EMPTY_STRING || !Faithful(m[key]));
      var i := ValueIsMatch(matches, key, 0);
      if |ValuesOf(matches, key)| > 1 {
        RepeatedKey(matches, key);
      }
    }
  }

  // ---------------------------------------------------------------- after Consul

  lemma UnderscoredHasSlash(s: string)
    ensures '/' in Underscored(s) <==> '/' in s
  {
    if '/' in s {
      var i :| 0 <= i < |s| && s[i] == '/';
      assert Underscored(s)[i] == '/';
    }
    if '/' in Underscored(s) {
      var i :| 0 <= i < |s| && Underscored(s)[i] == '/';
      assert s[i] == '/';
    }
  }

  lemma SlashFreeIfMatched(m: map<string, Tree>, matches: seq<Match>)
    requires IsMultimap(m, matches)
    ensures SlashFree(Dir(m)) <==> forall i | 0 <= i < |matches| :: '/' !in matches[i].key
  {
    if i :| 0 <= i < |matches| && '/' in matches[i].key {
      MatchIsValue(matches, i);
      UnderscoredHasSlash(matches[i].key);
      assert Underscored(matches[i].key) in m;
    } else {
      forall key | key in m ensures '/' !in key && SlashFree(m[key]) {
        var i := ValueIsMatch(matches, key, 0);
        UnderscoredHasSlash(matches[i].key);
        assert m[key] == Promoted(ValuesOf(matches, key));
      }
    }
  }

  /** Slices of at most one text: there are none. */
  lemma PlainFits(m: map<string, Tree>, matches: seq<Match>)
    requires IsMultimap(m, matches) && Faithful(Dir(m))
    ensures Fits(Dir(m))
  {
    forall key | key in m ensures Fits(m[key]) {
      var i := ValueIsMatch(matches, key, 0);
      FaithfulValue(m, matches, i);
    }
  }

  /** Read text that has been stored comes back as it was read if and only if no key occurs twice,
      no value is empty and no key has a slash. */
  lemma LoadedExactlyIfPlain(matches: seq<Match>, m: map<string, Tree>, prefix: string, before: Entries, after: Entries,
      query: string, pairs: seq<Pair>)
    requires IsMultimap(m, matches) && KeysValid(Dir(m)) && GoodPrefix(prefix)
    requires Written(before, after, PutPairs(prefix, Dir(m)), true)
    requires query <= WithSlash(prefix) && forall key | key in before && query <= key :: key == WithSlash(prefix)
    requires IsAnswer(pairs, after, query)
    ensures Load(pairs, prefix) == Loaded(m) <==>
      && (forall i, j | 0 <= i < j < |matches| :: Underscored(matches[i].key) != Underscored(matches[j].key))
      && (forall i | 0 <= i < |matches| :: matches[i].value != "")
      && (forall i | 0 <= i < |matches| :: '/' !in matches[i].key)
  {
    SlashFreeIfMatched(m, matches);
    LoadIsIdentityExactly(prefix, m, before, after, query, pairs);
    ReloadedExactlyIfPlain(m, matches);
    if Faithful(Dir(m)) { PlainFits(m, matches); }
  }

  lemma FaithfulValue(m: map<string, Tree>, matches: seq<Match>, i: nat)
    requires IsMultimap(m, matches) && Faithful(Dir(m)) && i < |matches|
    ensures |ValuesOf(matches, Underscored(matches[i].key))| == 1 && matches[i].value != ""
  {
    var key := Underscored(matches[i].key);
    MatchIsValue(matches, i);
    var vs := ValuesOf(matches, key);
    assert key in m && Faithful(m[key]) && m[key] != EMPTY_STRING;
    assert Texts(vs)[0].Scalar?;
  }

  lemma {:induction false} RepeatedKey(matches: seq<Match>, key: string)
    requires |ValuesOf(matches, key)| > 1
    ensures exists i, j :: 0 <= i < j < |matches| && Underscored(matches[i].key) == Underscored(matches[j].key) == key
  {
    var n := |matches| - 1;
    if Underscored(matches[n].key) == key {
      var i := ValueIsMatch(matches[..n], key, 0);
      assert matches[..n][i] == matches[i];
    } else {
      RepeatedKey(matches[..n], key);
      var i, j :| 0 <= i < j < n && Underscored(matches[..n][i].key) == Underscored(matches[..n][j].key) == key;
      assert matches[..n][i] == matches[i] && matches[..n][j] == matches[j];
    }
  }
}
