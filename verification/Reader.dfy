/** ListMap as the code runs it: a cursor that walks down a mutable tree of maps, creating and
    extending them in place, with a small state machine for slices. */
module Reader {
  import opened Strings
  import opened Decimal
  import opened Trees
  import opened Decoder

  /** One mutable map. Its cells are scalars, other maps, or slices of maps. */
  class Node {
    var m: map<string, Cell>

    constructor ()
      ensures m == map[]
    {
      m := map[];
    }
  }

  datatype Cell = Leaf(v: Value) | Sub(n: Node) | Items(ns: seq<Node>)

  /** Where a map is referred to: by that cell of that map, at that position of a slice; and how
      deep below the root it is. */
  datatype Place = Place(parent: Node, key: string, i: nat, depth: nat)

  type View = map<Node, map<string, Tree>>
  type Places = map<Node, Place>

  // ---------------------------------------------------------------- what the maps stand for

  ghost function Depth(p: Node, up: Places): nat {
    if p in up then up[p].depth else 0
  }

  ghost predicate RefersOnly(n: Node, p: Node, key: string, i: nat, view: View, up: Places) {
    n in view && n in up && up[n] == Place(p, key, i, Depth(p, up) + 1)
  }

  /** The cell at key of p stands for t, and p refers there to maps that nothing else refers to. */
  ghost predicate CellIs(c: Cell, t: Tree, p: Node, key: string, view: View, up: Places) {
    match c
    case Leaf(v) => t == Scalar(v)
    case Sub(n) => RefersOnly(n, p, key, 0, view, up) && t == Dir(view[n])
    case Items(ns) =>
      && t.List? && |t.items| == |ns|
      && forall i | 0 <= i < |ns| ::
        RefersOnly(ns[i], p, key, i, view, up) && t.items[i] == Dir(view[ns[i]])
  }

  ghost predicate Content(p: Node, value: map<string, Tree>, view: View, up: Places)
    reads p
  {
    && p.m.Keys == value.Keys
    && forall k | k in p.m :: CellIs(p.m[k], value[k], p, k, view, up)
  }

  /** Every map but the one under the cursor has the content that the view says. */
  ghost predicate TidyExcept(cursor: Node?, view: View, up: Places)
    reads view.Keys
  {
    forall p | p in view && p != cursor :: Content(p, view[p], view, up)
  }

  ghost predicate Tidy(root: Node, view: View, up: Places)
    reads view.Keys
  {
    root in view && root !in up && TidyExcept(null, view, up)
  }

  lemma {:induction false} EmptyMapTakesAnything(keys: Path, e: Entry)
    requires keys != []
    ensures Insert(map[], keys, e).Loaded?
    decreases |keys|
  {
    if |keys| > 1 {
      EmptyMapTakesAnything(keys[1..], e);
    }
  }

  // ---------------------------------------------------------------- moving the cursor

  /** The promise at the cursor: inserting what is left of the key turns its content into what
      the view says already. A key that ends in a panic promises that nothing has been written. */
  ghost predicate Promise(here: map<string, Tree>, keys: Path, e: Entry, target: map<string, Tree>, doomed: bool) {
    && keys != []
    && (doomed ==> Insert(here, keys, e) == Panic && target == here)
    && (!doomed ==> Insert(here, keys, e) == Loaded(target))
  }

  /** A cursor at p: its cells stand for here, all other maps for what the view says. */
  ghost predicate CursorAt(p: Node, here: map<string, Tree>, view: View, up: Places)
    reads p, view.Keys
  {
    p in view && Content(p, here, view, up) && TidyExcept(p, view, up)
  }

  /** Stepping from p to the map d that only p refers to: p has arrived at its target once d has. */
  lemma StepDown(p: Node, d: Node, here: map<string, Tree>, view: View, up: Places, sub: map<string, Tree>)
    requires CursorAt(p, here, view, up) && d in view && d in up && up[d].parent == p && up[d].depth == Depth(p, up) + 1
    requires p.m.Keys == view[p].Keys
    requires forall k | k in p.m :: CellIs(p.m[k], view[p][k], p, k, view[d := sub], up)
    ensures CursorAt(d, view[d], view[d := sub], up)
  {
    var view' := view[d := sub];
    assert p != d;
    forall q | q in view && q != p
      ensures Content(q, view[q], view', up)
    {
      assert Content(q, view[q], view, up);
      forall k | k in q.m ensures CellIs(q.m[k], view[q][k], q, k, view', up) {
        assert CellIs(q.m[k], view[q][k], q, k, view, up);
      }
    }
  }

  /** Into an existing map. */
  lemma IntoMap(p: Node, key: string, here: map<string, Tree>, view: View, up: Places, keys: Path, e: Entry,
      doomed: bool)
      returns (view': View)
    requires CursorAt(p, here, view, up) && key in p.m && p.m[key].Sub?
    requires Promise(here, keys, e, view[p], doomed) && keys[0] == key && |keys| > 1
    requires !(e.flag == SLICE_FLAG && |keys| == 2)
    ensures p.m[key].n in view && view'.Keys == view.Keys
    ensures CursorAt(p.m[key].n, view[p.m[key].n], view', up)
    ensures Promise(view[p.m[key].n], keys[1..], e, view'[p.m[key].n], doomed)
    ensures forall q | q in view && q != p.m[key].n :: view'[q] == view[q]
  {
    var d := p.m[key].n;
    assert CellIs(p.m[key], here[key], p, key, view, up);
    var sub := if doomed then view[d] else Insert(view[d], keys[1..], e).m;
    view' := view[d := sub];
    forall k | k in p.m ensures k in view[p] && CellIs(p.m[k], view[p][k], p, k, view', up) {
      assert CellIs(p.m[k], here[k], p, k, view, up);
    }
    StepDown(p, d, here, view, up, sub);
  }

  /** Into an existing slice element. */
  lemma IntoElement(p: Node, key: string, i: nat, here: map<string, Tree>, view: View, up: Places, keys: Path,
      e: Entry, doomed: bool)
      returns (view': View)
    requires CursorAt(p, here, view, up) && key in p.m && p.m[key].Items? && i < |p.m[key].ns|
    requires Promise(here, keys, e, view[p], doomed) && |keys| > 1 && keys[0] == key
    requires AtoiIgnoringError(keys[1]) == i && !(e.flag == SLICE_FLAG && |keys| == 2)
    ensures p.m[key].ns[i] in view && view'.Keys == view.Keys
    ensures CursorAt(p.m[key].ns[i], view[p.m[key].ns[i]], view', up)
    ensures |keys| > 2 ==> Promise(view[p.m[key].ns[i]], keys[2..], e, view'[p.m[key].ns[i]], doomed)
    ensures |keys| == 2 ==> !doomed && view' == view
    ensures forall q | q in view && q != p.m[key].ns[i] :: view'[q] == view[q]
  {
    var d := p.m[key].ns[i];
    assert CellIs(p.m[key], here[key], p, key, view, up);
    assert keys[1..][1..] == keys[2..];
    assert Insert(here, keys, e) == InsertElement(here, key, keys[1..], e);
    var sub := if doomed || |keys| == 2 then view[d] else Insert(view[d], keys[2..], e).m;
    view' := view[d := sub];
    forall k | k in p.m ensures k in view[p] && CellIs(p.m[k], view[p][k], p, k, view', up) {
      assert CellIs(p.m[k], here[k], p, k, view, up);
    }
    StepDown(p, d, here, view, up, sub);
  }

  /** An empty map promises nothing that the map without it does not. */
  lemma EmptyMapIsNoMap(here: map<string, Tree>, keys: Path, e: Entry)
    requires |keys| > 1 && keys[0] !in here && !(e.flag == SLICE_FLAG && |keys| == 2)
    ensures Insert(here[keys[0] := Dir(map[])], keys, e) == Insert(here, keys, e)
    ensures Insert(here, keys, e).Loaded?
  {
    EmptyMapTakesAnything(keys[1..], e);
    var sub := Insert(map[], keys[1..], e).m;
    assert here[keys[0] := Dir(map[])][keys[0] := Dir(sub)] == here[keys[0] := Dir(sub)];
  }

  lemma EmptyElementIsNoElement(here: map<string, Tree>, keys: Path, e: Entry)
    requires |keys| > 1 && keys[0] in here && here[keys[0]].List? && !(e.flag == SLICE_FLAG && |keys| == 2)
    requires AtoiIgnoringError(keys[1]) == |here[keys[0]].items|
    ensures Insert(here[keys[0] := List(here[keys[0]].items + [Dir(map[])])], keys, e) == Insert(here, keys, e)
    ensures Insert(here, keys, e).Loaded?
  {
    var key, items := keys[0], here[keys[0]].items;
    var items' := items + [Dir(map[])];
    var here' := here[key := List(items')];
    assert Insert(here, keys, e) == InsertElement(here, key, keys[1..], e);
    assert Insert(here', keys, e) == InsertElement(here', key, keys[1..], e);
    if |keys| > 2 {
      EmptyMapTakesAnything(keys[2..], e);
      assert keys[1..][1..] == keys[2..];
      var sub := Insert(map[], keys[2..], e).m;
      assert items'[|items| := Dir(sub)] == items + [Dir(sub)];
      assert here'[key := List(items + [Dir(sub)])] == here[key := List(items + [Dir(sub)])];
    }
  }

  // ---------------------------------------------------------------- writing under the cursor

  /** A new map that is referred to in one more place does not change what other cells stand for. */
  lemma CellUnaffected(c: Cell, t: Tree, p: Node, key: string, view: View, up: Places, child: Node, place: Place)
    requires CellIs(c, t, p, key, view, up) && child !in view && child !in up && child != p
    ensures CellIs(c, t, p, key, view[child := map[]], up[child := place])
  {
  }

  lemma MapUnaffected(p: Node, value: map<string, Tree>, view: View, up: Places, child: Node, place: Place)
    requires Content(p, value, view, up) && child !in view && child !in up && child != p
    ensures Content(p, value, view[child := map[]], up[child := place])
  {
    forall k | k in p.m ensures CellIs(p.m[k], value[k], p, k, view[child := map[]], up[child := place]) {
      CellUnaffected(p.m[k], value[k], p, k, view, up, child, place);
    }
  }

  /** currentItem[key] = make(map[string]interface{}) */
  method MakeMap(p: Node, key: string, ghost here: map<string, Tree>, ghost view: View, ghost up: Places)
      returns (child: Node, ghost place: Place)
    requires CursorAt(p, here, view, up) && key !in here && up.Keys <= view.Keys
    modifies p
    ensures fresh(child) && key in p.m && p.m[key] == Sub(child)
    ensures CursorAt(p, here[key := Dir(map[])], view[child := map[]], up[child := place])
  {
    child := new Node();
    place := Place(p, key, 0, Depth(p, up) + 1);
    MapUnaffected(p, here, view, up, child, place);
    forall q | q in view && q != p ensures Content(q, view[q], view[child := map[]], up[child := place]) {
      MapUnaffected(q, view[q], view, up, child, place);
    }
    p.m := p.m[key := Sub(child)];
  }

  /** currentItem[lastKey] = append(currentItem[lastKey], make(map[string]interface{})) */
  method AppendMap(p: Node, key: string, ghost here: map<string, Tree>, ghost view: View, ghost up: Places)
      returns (child: Node, ghost place: Place)
    requires CursorAt(p, here, view, up) && key in p.m && p.m[key].Items? && up.Keys <= view.Keys
    modifies p
    ensures fresh(child) && key in p.m && p.m[key] == Items(old(p.m[key].ns) + [child])
    ensures key in here && here[key].List?
    ensures CursorAt(p, here[key := List(here[key].items + [Dir(map[])])], view[child := map[]], up[child := place])
  {
    child := new Node();
    assert CellIs(p.m[key], here[key], p, key, view, up);
    place := Place(p, key, |p.m[key].ns|, Depth(p, up) + 1);
    MapUnaffected(p, here, view, up, child, place);
    assert CellIs(p.m[key], here[key], p, key, view[child := map[]], up[child := place]);
    forall q | q in view && q != p ensures Content(q, view[q], view[child := map[]], up[child := place]) {
      MapUnaffected(q, view[q], view, up, child, place);
    }
    p.m := p.m[key := Items(p.m[key].ns + [child])];
  }

  /** currentItem[key] = value, for what getTypeByFlag returns. */
  method SetCell(p: Node, key: string, e: Entry, ghost here: map<string, Tree>, ghost view: View, ghost up: Places)
    requires CursorAt(p, here, view, up)
    modifies p
    ensures CursorAt(p, here[key := Decode(e)], view, up)
  {
    p.m := p.m[key := match Decode(e) { case Scalar(v) => Leaf(v) case _ => Items([]) }];
    forall q | q in view && q != p ensures Content(q, view[q], view, up) {
      assert old(Content(q, view[q], view, up));
    }
  }

  // ---------------------------------------------------------------- one entry

  /** Where the inner loop stands with the components rest in front of it, after a slice if slice
      holds its name: the cursor has a promise for them, it is below a scalar, or it has arrived. */
  ghost predicate Walking(p: Node?, slice: Path, rest: Path, e: Entry,
                          here: map<string, Tree>, view: View, up: Places, doomed: bool)
    reads p, view.Keys
  {
    if p == null then
      && slice == [] && rest != [] && TidyExcept(null, view, up)
      && (doomed <==> !(|rest| == 1 && Decode(e) == EMPTY_STRING))
    else if slice != [] then
      && |slice| == 1 && rest != [] && CursorAt(p, here, view, up) && Promise(here, slice + rest, e, view[p], doomed)
      && slice[0] in here && here[slice[0]].List? && !(e.flag == SLICE_FLAG && |rest| == 1)
    else if rest == [] then
      !doomed && p in view && CursorAt(p, view[p], view, up)
    else
      CursorAt(p, here, view, up) && Promise(here, rest, e, view[p], doomed)
  }

  lemma SliceFound(p: Node, key: string, next: Path, e: Entry, here: map<string, Tree>, view: View, up: Places,
      doomed: bool)
    requires Walking(p, [], [key] + next, e, here, view, up, doomed) && key in p.m && p.m[key].Items?
    requires next != [] && !(e.flag == SLICE_FLAG && |next| == 1)
    ensures Walking(p, [key], next, e, here, view, up, doomed)
  {
    assert CellIs(p.m[key], here[key], p, key, view, up);
  }

  /** The component after a slice: one past the end appends a map, a smaller index finds one. */
  method StepIntoElement(p: Node, lastKey: string, key: string, ghost here: map<string, Tree>,
                         ghost view0: View, ghost up0: Places, ghost rest: Path, e: Entry, ghost doomed: bool)
      returns (panicked: bool, ghost view: View, ghost up: Places, currentItem: Node, ghost here': map<string, Tree>)
    requires up0.Keys <= view0.Keys && rest != [] && rest[0] == key
    requires Walking(p, [lastKey], rest, e, here, view0, up0, doomed)
    modifies p
    ensures panicked ==> doomed && view == view0 && up == up0
    ensures !panicked ==> Walking(currentItem, [], rest[1..], e, here', view, up, doomed)
    ensures view0.Keys <= view.Keys && fresh(view.Keys - view0.Keys) && up.Keys <= view.Keys
    ensures up.Keys - up0.Keys == view.Keys - view0.Keys
    ensures !panicked ==> currentItem in up && forall q | q in view0 && q != currentItem :: view[q] == view0[q]
  {
    ghost var keys := [lastKey] + rest;
    assert keys[2..] == rest[1..];
    assert CellIs(p.m[lastKey], here[lastKey], p, lastKey, view0, up0);
    assert Insert(here, keys, e) == InsertElement(here, lastKey, keys[1..], e);
    view, up, currentItem, here', panicked := view0, up0, p, here, false;
    var keyInt := AtoiIgnoringError(key);
    if |p.m[lastKey].ns| == keyInt {
      EmptyElementIsNoElement(here, keys, e);
      ghost var place;
      currentItem, place := AppendMap(p, lastKey, here, view0, up0);
      here' := here[lastKey := List(here[lastKey].items + [Dir(map[])])];
      view, up := view0[currentItem := map[]], up0[currentItem := place];
    } else if !(0 <= keyInt < |p.m[lastKey].ns|) {
      panicked := true;
      return;
    } else {
      currentItem := p.m[lastKey].ns[keyInt];
    }
    ghost var sub := view[currentItem];
    view := IntoElement(p, lastKey, keyInt, here', view, up, keys, e, doomed);
    here' := sub;
  }

  /** The component of a map: a missing one is made, and below a scalar there is none. */
  method StepIntoMap(p: Node, key: string, ghost here: map<string, Tree>,
                     ghost view0: View, ghost up0: Places, ghost keys: Path, e: Entry, ghost doomed: bool)
      returns (ghost view: View, ghost up: Places, currentItem: Node?, ghost here': map<string, Tree>)
    requires CursorAt(p, here, view0, up0) && up0.Keys <= view0.Keys
    requires |keys| > 1 && keys[0] == key && !(e.flag == SLICE_FLAG && |keys| == 2)
    requires Promise(here, keys, e, view0[p], doomed) && !(key in p.m && p.m[key].Items?)
    modifies p
    ensures Walking(currentItem, [], keys[1..], e, here', view, up, doomed)
    ensures currentItem == null ==> view == view0 && up == up0
    ensures view0.Keys <= view.Keys && fresh(view.Keys - view0.Keys) && up.Keys <= view.Keys
    ensures up.Keys - up0.Keys == view.Keys - view0.Keys
    ensures currentItem != null ==>
      currentItem in up && forall q | q in view0 && q != currentItem :: view[q] == view0[q]
  {
    view, up, here' := view0, up0, here;
    if key !in p.m {
      EmptyMapIsNoMap(here, keys, e);
      var child;
      ghost var place;
      child, place := MakeMap(p, key, here, view0, up0);
      here' := here[key := Dir(map[])];
      view, up := view0[child := map[]], up0[child := place];
    }
    assert CellIs(p.m[key], here'[key], p, key, view, up);
    if p.m[key].Sub? {
      currentItem := p.m[key].n;
      ghost var sub := view[currentItem];
      view := IntoMap(p, key, here', view, up, keys, e, doomed);
      here' := sub;
    } else {
      currentItem := null;
      assert Insert(here, keys, e) == InsertNowhere(here, keys[1..], e);
    }
  }

  /** The last component, or the last but one of a slice marker. An empty string is not written. */
  method WriteLast(p: Node?, key: string, e: Entry, ghost here: map<string, Tree>, ghost view: View, ghost up: Places,
                   ghost keys: Path, ghost doomed: bool)
      returns (panicked: bool)
    requires keys != [] && keys[0] == key && (|keys| == 1 || (|keys| == 2 && e.flag == SLICE_FLAG))
    requires p != null ==> CursorAt(p, here, view, up) && Promise(here, keys, e, view[p], doomed)
    requires p == null ==> TidyExcept(null, view, up) && (doomed <==> !(|keys| == 1 && Decode(e) == EMPTY_STRING))
    modifies p
    ensures panicked == doomed && (!panicked ==> TidyExcept(null, view, up))
  {
    panicked := p == null && Decode(e) != EMPTY_STRING;
    if p != null && Decode(e) != EMPTY_STRING {
      SetCell(p, key, e, here, view, up);
    }
  }

  /** How one turn of the inner loop ends: at the next component, done with the key, or in a panic. */
  datatype Turn = Next | Done | Crash

  /** One turn of the inner loop of ListMap, for the component key in front of the cursor. */
  method TurnAt(p: Node?, lastKey: string, sliceFound: bool, key: string, left: nat, e: Entry,
                ghost slice: Path, ghost rest: Path, ghost here: map<string, Tree>,
                ghost view0: View, ghost up0: Places, ghost doomed: bool)
      returns (turn: Turn, currentItem: Node?, lastKey': string, sliceFound': bool,
               ghost slice': Path, ghost here': map<string, Tree>, ghost view: View, ghost up: Places)
    requires up0.Keys <= view0.Keys && |rest| == left && left > 0 && rest[0] == key
    requires slice == (if sliceFound then [lastKey] else [])
    requires Walking(p, slice, rest, e, here, view0, up0, doomed)
    modifies p
    ensures slice' == if sliceFound' then [lastKey'] else []
    ensures turn == Next ==> Walking(currentItem, slice', rest[1..], e, here', view, up, doomed)
    ensures turn == Done ==> !doomed && TidyExcept(null, view, up)
    ensures turn == Crash ==> doomed
    ensures turn == Next && currentItem != null ==> currentItem in view
    ensures view0.Keys <= view.Keys && fresh(view.Keys - view0.Keys) && up.Keys <= view.Keys
    ensures forall q | q in view0 && q !in up0 :: q !in up && view[q] == view0[q]
  {
    turn, currentItem, lastKey', sliceFound' := Next, p, lastKey, sliceFound;
    slice', here', view, up := slice, here, view0, up0;
    if sliceFound {
      var panicked;
      panicked, view, up, currentItem, here' := StepIntoElement(p, lastKey, key, here, view0, up0, rest, e, doomed);
      sliceFound', slice' := false, [];
      turn := if panicked then Crash else Next;
    } else if (e.flag == SLICE_FLAG && left == 2) || left == 1 {
      var panicked := WriteLast(p, key, e, here, view0, up0, rest, doomed);
      turn := if panicked then Crash else Done;
    } else if p == null {
      turn := Crash;
    } else if key in p.m && p.m[key].Items? {
      assert [key] + rest[1..] == rest;
      SliceFound(p, key, rest[1..], e, here, view0, up0, doomed);
      lastKey', sliceFound', slice' := key, true, [key];
    } else {
      view, up, currentItem, here' := StepIntoMap(p, key, here, view0, up0, rest, e, doomed);
    }
  }

  /** The inner loop begins with the cursor at the root and the promise that it will have become what
      Insert makes of it. */
  lemma AtTheRoot(root: Node, keys: Path, e: Entry, view0: View, up: Places, result: Outcome, view: View)
    requires keys != [] && Tidy(root, view0, up) && result == Insert(view0[root], keys, e)
    requires view == if result == Panic then view0 else view0[root := result.m]
    ensures Walking(root, [], keys, e, view0[root], view, up, result == Panic)
  {
    forall p | p in view0 ensures Content(p, view0[p], view, up) {
      assert Content(p, view0[p], view0, up);
      ContentKept(p, view0[p], root, view0, view, up);
    }
  }

  lemma ContentKept(p: Node, value: map<string, Tree>, root: Node, view0: View, view: View, up: Places)
    requires Content(p, value, view0, up) && root !in up
    requires view0.Keys <= view.Keys && forall q | q in view0 && q != root :: view[q] == view0[q]
    ensures Content(p, value, view, up)
  {
    forall k | k in p.m ensures CellIs(p.m[k], value[k], p, k, view, up) {
      assert CellIs(p.m[k], value[k], p, k, view0, up);
    }
  }

  /** The inner loop of ListMap. The cursor starts at the root; in front of it is the rest of the
      key, and a slice that has been found waits for its index. Below a scalar there is no map. */
  method InsertEntry(root: Node, keys: Path, e: Entry, ghost view0: View, ghost up0: Places)
      returns (panicked: bool, ghost view: View, ghost up: Places)
    requires keys != [] && Tidy(root, view0, up0) && up0.Keys <= view0.Keys
    modifies view0.Keys
    ensures panicked <==> Insert(view0[root], keys, e) == Panic
    ensures !panicked ==> Tidy(root, view, up) && Insert(view0[root], keys, e) == Loaded(view[root])
    ensures view0.Keys <= view.Keys && fresh(view.Keys - view0.Keys) && up.Keys <= view.Keys
  {
    ghost var result := Insert(view0[root], keys, e);
    ghost var doomed := result == Panic;
    ghost var here, slice: Path, rest := view0[root], [], keys;
    view, up := if doomed then view0 else view0[root := result.m], up0;
    var currentItem: Node? := root;
    var lastKey := "";
    var sliceFound := false;
    var turn := Next;
    var i := 0;
    AtTheRoot(root, keys, e, view0, up0, result, view);
    while i < |keys| && turn == Next
      invariant 0 <= i <= |keys| && rest == keys[i..]
      invariant view0.Keys <= view.Keys && fresh(view.Keys - view0.Keys) && up.Keys <= view.Keys
      invariant turn == Next && currentItem != null ==> currentItem in view
      invariant root in view && root !in up && (!doomed ==> view[root] == result.m)
      invariant slice == if sliceFound then [lastKey] else []
      invariant turn == Next ==> Walking(currentItem, slice, rest, e, here, view, up, doomed)
      invariant turn == Done ==> !doomed && TidyExcept(null, view, up)
      invariant turn == Crash ==> doomed
    {
      turn, currentItem, lastKey, sliceFound, slice, here, view, up :=
        TurnAt(currentItem, lastKey, sliceFound, keys[i], |keys| - i, e, slice, rest, here, view, up, doomed);
      i, rest := i + 1, keys[i + 1..];
    }
    panicked := turn == Crash;
  }

  // ---------------------------------------------------------------- the listing

  /** What Consul answers to the query for a prefix. */
  datatype Answer = Pairs(pairs: seq<Pair>) | QueryFailed

  /** What ListMap hands out: the root of a tree of maps or the error of the query. A panic is not
      handed out, it ends the program. */
  datatype Result = Tree(root: Node) | Error | Panicked

  /** The tree that a node is the root of. */
  ghost predicate StandsFor(root: Node, m: map<string, Tree>, view: View, up: Places)
    reads view.Keys
  {
    Tidy(root, view, up) && view[root] == m
  }

  /** ListMap: the outer loop takes the entries of the listing one by one, each from the root. */
  method ListMap(answer: Answer, offset: string) returns (r: Result, ghost view: View, ghost up: Places)
    ensures answer.QueryFailed? <==> r.Error?
    ensures r.Panicked? <==> answer.Pairs? && Load(answer.pairs, offset) == Panic
    ensures r.Tree? ==> answer.Pairs? && exists m ::
      Load(answer.pairs, offset) == Loaded(m) && StandsFor(r.root, m, view, up)
  {
    view, up := map[], map[];
    if answer.QueryFailed? {
      return Error, view, up;
    }
    var result := new Node();
    view := map[result := map[]];
    var entries := answer.pairs;
    for n := 0 to |entries|
      invariant Tidy(result, view, up) && up.Keys <= view.Keys
      invariant fresh(view.Keys)
      invariant Load(entries[..n], offset) == Loaded(view[result])
    {
      var modEntry := Below(entries[n].key, offset);
      LoadStep(entries, n, offset);
      if modEntry != "" {
        var panicked;
        panicked, view, up := InsertEntry(result, Split(modEntry), entries[n].e, view, up);
        if panicked {
          PanicStays(entries, offset, n + 1);
          return Panicked, view, up;
        }
      }
    }
    assert entries[..|entries|] == entries;
    assert StandsFor(result, view[result], view, up);
    r := Tree(result);
  }
}
