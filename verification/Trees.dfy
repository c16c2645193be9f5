/** The nested data that the agents keep in Consul, its typed entries, and what is left of a tree
    after it has been stored and loaded again. */
module Trees {
  import opened Decimal
  import opened GoPath

  /** A scalar as it can appear in a loaded tree. Fault is the error value that a scalar with
      unreadable text is replaced by, Nil the value of an entry with an unknown flag. */
  datatype Value = Str(s: string) | Int(n: Int64) | Int32Value(n32: Int32) | Bool(b: bool) | Fault | Nil

  datatype Tree = Scalar(v: Value) | Dir(m: map<string, Tree>) | List(items: seq<Tree>)

  /** The text and flag of one Consul key. */
  datatype Entry = Entry(text: string, flag: nat)

  const STRING_FLAG: nat := 0
  const INT32_FLAG: nat := 1
  const BOOL_FLAG: nat := 2
  const SLICE_FLAG: nat := 3
  const INT_FLAG: nat := 4

  /** What an empty map leaves under its own key with a trailing slash. */
  const EMPTY_DIR := Entry("", STRING_FLAG)
  /** What a slice leaves under its own key with a trailing slash. */
  const SLICE_MARK := Entry("", SLICE_FLAG)

  // ---------------------------------------------------------------- typed entries

  predicate Storable(v: Value) {
    !v.Fault? && !v.Nil?
  }

  /** The flag and text that PutTyped chooses for a scalar. */
  function TypedEntry(v: Value): Entry {
    match v
    case Str(s) => Entry(s, STRING_FLAG)
    case Int(n) => Entry(Text(n), INT_FLAG)
    case Int32Value(n) => Entry(Text(n), INT32_FLAG)
    case Bool(b) => Entry(BoolText(b), BOOL_FLAG)
    case Fault => Entry("", STRING_FLAG)
    case Nil => Entry("<nil>", STRING_FLAG)
  }

  /** getTypeByFlag */
  function Decode(e: Entry): Tree {
    if e.flag == STRING_FLAG then Scalar(Str(e.text))
    else if e.flag == INT32_FLAG then
      match ParseInt32(e.text) { case Parsed(n) => Scalar(Int32Value(n)) case Failed => Scalar(Fault) }
    else if e.flag == INT_FLAG then
      match ParseInt64(e.text) { case Parsed(n) => Scalar(Int(n)) case Failed => Scalar(Fault) }
    else if e.flag == BOOL_FLAG then
      match ParseBool(e.text) { case Parsed(b) => Scalar(Bool(b)) case Failed => Scalar(Fault) }
    else if e.flag == SLICE_FLAG then List([])
    else Scalar(Nil)
  }

  /** Every storable scalar, over the whole range of its Go type, comes back with its type and value. */
  lemma ScalarRoundTrip(v: Value)
    requires Storable(v)
    ensures Decode(TypedEntry(v)) == Scalar(v)
  {
    match v
    case Int(n) => UnboundedOfText(n);
    case Int32Value(n) => UnboundedOfText(n);
    case _ =>
  }

  /** The entries as they are in Consul, flags and texts written out: 0 for strings, 4 for ints and 1 for
      int32s in canonical decimal, 2 for true and false, and 3 for the empty marker of a slice. */
  lemma EntriesAsWritten(e: Entry, v: Value)
    requires Storable(v)
    ensures e == TypedEntry(v) <==>
      match v
      case Str(s) => e.flag == 0 && e.text == s
      case Int(n) => e.flag == 4 && IsCanonical(e.text, n < 0) && Unbounded(e.text) == Parsed(n)
      case Int32Value(n) => e.flag == 1 && IsCanonical(e.text, n < 0) && Unbounded(e.text) == Parsed(n)
      case Bool(b) => e.flag == 2 && e.text == (if b then "true" else "false")
    ensures SLICE_MARK == Entry("", 3) && EMPTY_DIR == Entry("", 0) && TypedEntry(Nil) == Entry("<nil>", 0)
  {
    match v
    case Int(n) => TextIsTheCanonical(n, e.text);
    case Int32Value(n) => TextIsTheCanonical(n, e.text);
    case _ =>
  }

  /** And as they are read, whoever put them: each flag by its number. A text that is no number or
      boolean gives the error, and a flag that the program does not know gives nothing. */
  lemma EntriesAsRead(e: Entry)
    ensures e.flag == 0 ==> Decode(e) == Scalar(Str(e.text))
    ensures e.flag == 1 && Unbounded(e.text).Parsed? && -0x8000_0000 <= Unbounded(e.text).value < 0x8000_0000 ==>
      Decode(e).Scalar? && Decode(e).v.Int32Value? && Unbounded(e.text) == Parsed(Decode(e).v.n32 as int)
    ensures e.flag == 2 && e.text in {"1", "t", "T", "true", "TRUE", "True"} ==> Decode(e) == Scalar(Bool(true))
    ensures e.flag == 2 && e.text in {"0", "f", "F", "false", "FALSE", "False"} ==> Decode(e) == Scalar(Bool(false))
    ensures e.flag == 3 ==> Decode(e) == List([])
    ensures e.flag == 4 && Unbounded(e.text).Parsed? && MIN_INT64 <= Unbounded(e.text).value <= MAX_INT64 ==>
      Decode(e).Scalar? && Decode(e).v.Int? && Unbounded(e.text) == Parsed(Decode(e).v.n as int)
    ensures e.flag > 4 <==> Decode(e) == Scalar(Nil)
    ensures Decode(e) == Scalar(Fault) <==>
      || (e.flag == 1 && ParseInt32(e.text).Failed?)
      || (e.flag == 2 && ParseBool(e.text).Failed?)
      || (e.flag == 4 && ParseInt64(e.text).Failed?)
  {
  }

  const EMPTY_STRING := Scalar(Str(""))

  // ---------------------------------------------------------------- trees

  /** The trees that the codec is for: keys are single path components, a scalar's key does not end
      in a blank (ListMap trims it away) and scalars are strings, ints, int32s or bools. */
  predicate Valid(t: Tree) {
    match t
    case Scalar(v) => Storable(v)
    case Dir(m) => forall k | k in m :: ValidComponent(k) && (m[k].Scalar? ==> k[|k| - 1] != ' ') && Valid(m[k])
    case List(items) => |items| <= MAX_INT64 && forall i | 0 <= i < |items| :: Valid(items[i])
  }

  /** No slice that ListMap reads back as a slice has more than 10000 elements. A slice that is
      itself an element of a slice is not read back as one, so its length does not matter. */
  predicate Fits(t: Tree) {
    match t
    case Scalar(_) => true
    case Dir(m) => forall k | k in m :: Fits(m[k])
    case List(items) =>
      && |items| <= 10000
      && forall i | 0 <= i < |items| ::
        match items[i]
        case List(inner) => forall j | 0 <= j < |inner| :: Fits(inner[j])
        case _ => Fits(items[i])
  }

  // ---------------------------------------------------------------- what a round trip does

  /** A value after storing and loading. In a map the string entries with empty text are gone and
      everything else is there; in a slice every element is a map. */
  function ReloadValue(t: Tree): (r: Tree)
    ensures t.Dir? <==> r.Dir?
    ensures t.List? ==> r.List? && |r.items| == |t.items|
    decreases t, 0
  {
    match t
    case Scalar(_) => t
    case Dir(m) => Dir(map k | k in m && m[k] != EMPTY_STRING :: ReloadValue(m[k]))
    case List(items) => List(seq(|items|, i requires 0 <= i < |items| => Dir(ReloadElement(items[i]))))
  }

  /** Every slice element is loaded as a map: a scalar element as the empty one, and a slice that
      is a slice element as a map from "" to an empty slice and from the index texts to its elements. */
  function ReloadElement(t: Tree): map<string, Tree>
    decreases t, 1
  {
    match t
    case Scalar(_) => map[]
    case Dir(m) => ReloadValue(t).m
    case List(inner) =>
      var values := seq(|inner|, i requires 0 <= i < |inner| => ReloadValue(inner[i]));
      map["" := List([])] + WithoutEmptyStrings(Numbered(values))
  }

  function WithoutEmptyStrings(m: map<string, Tree>): map<string, Tree> {
    map k | k in m && m[k] != EMPTY_STRING :: m[k]
  }

  function Reload(m: map<string, Tree>): map<string, Tree> {
    ReloadValue(Dir(m)).m
  }

  /** A tree without empty strings in its maps and with nothing but maps in its slices. */
  predicate Faithful(t: Tree) {
    match t
    case Scalar(_) => true
    case Dir(m) => forall k | k in m :: m[k] != EMPTY_STRING && Faithful(m[k])
    case List(items) => forall i | 0 <= i < |items| :: items[i].Dir? && Faithful(items[i])
  }

  lemma {:induction false} ReloadValueIdentity(t: Tree)
    ensures ReloadValue(t) == t <==> Faithful(t)
  {
    match t
    case Scalar(_) =>
    case Dir(m) =>
      var r := ReloadValue(t).m;
      forall k | k in m ensures ReloadValue(m[k]) == m[k] <==> Faithful(m[k]) {
        ReloadValueIdentity(m[k]);
      }
      assert r == m ==> forall k | k in m :: k in r && r[k] == m[k];
    case List(items) =>
      forall i | 0 <= i < |items| ensures ReloadValue(items[i]) == items[i] <==> Faithful(items[i]) {
        ReloadValueIdentity(items[i]);
      }
      var r := ReloadValue(t).items;
      assert r == items ==> forall i | 0 <= i < |items| :: r[i] == items[i];
      if Faithful(t) {
        forall i | 0 <= i < |items| ensures r[i] == items[i] {
          assert ReloadElement(items[i]) == ReloadValue(items[i]).m;
          assert r[i] == Dir(ReloadElement(items[i]));
        }
      }
  }

  /** A round trip is the identity on exactly the faithful trees. */
  lemma ReloadIsIdentityExactlyOnFaithful(m: map<string, Tree>)
    ensures Reload(m) == m <==> Faithful(Dir(m))
  {
    ReloadValueIdentity(Dir(m));
  }
}
