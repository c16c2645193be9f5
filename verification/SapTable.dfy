/** The table of SAP systems: the systems of all hosts, with one row for each system. */
module SapTable {
  import opened Strings
  import opened Decimal
  import opened Projection

  const APPLICATION := 2

  /** One instance of a system on a host; what a row shows of it is taken from it. */
  datatype Instance = Instance(sid: string, number: string, kind: int, host: string, features: string)

  datatype System = System(id: string, sid: string, kind: int, instances: map<string, Instance>)

  datatype Row = Row(
    id: string, sid: string, attachedSid: string, attachedId: string, tags: seq<string>,
    instances: seq<Instance>, hasDuplicatedSid: bool)

  /** The services: the tags of a system, and the databases attached to one. Both can fail. */
  type Tags = (int, string) -> Option<seq<string>>
  type Attached = string -> Option<seq<System>>

  // ---------------------------------------------------------------- sorting by SID

  predicate SortedBy<T>(s: seq<T>, key: T -> string) {
    forall i, j | 0 <= i < j < |s| :: !Less(key(s[j]), key(s[i]))
  }

  function InsertBy<T>(x: T, s: seq<T>, key: T -> string): seq<T> {
    if s == [] then [x]
    else if Less(key(x), key(s[0])) then [x] + s
    else [s[0]] + InsertBy(x, s[1..], key)
  }

  /** The library's sort; that it keeps the order of equal keys is not used. */
  function SortBy<T>(s: seq<T>, key: T -> string): seq<T> {
    if s == [] then [] else InsertBy(s[0], SortBy(s[1..], key), key)
  }

  lemma SmallestFirst<T>(x: T, s: seq<T>, key: T -> string)
    requires SortedBy(s, key) && s != [] && Less(key(x), key(s[0]))
    ensures SortedBy([x] + s, key)
  {
    forall j | 0 <= j < |s| ensures !Less(key(s[j]), key(x)) {
      if Less(key(s[j]), key(x)) {
        LessTransitive(key(s[j]), key(x), key(s[0]));
        LessIrreflexive(key(s[0]));
      }
    }
  }

  lemma {:induction false} InsertBySorts<T>(x: T, s: seq<T>, key: T -> string)
    requires SortedBy(s, key)
    ensures SortedBy(InsertBy(x, s, key), key) && multiset(InsertBy(x, s, key)) == multiset(s) + multiset{x}
  {
    if s != [] {
      assert s == [s[0]] + s[1..];
      if Less(key(x), key(s[0])) {
        SmallestFirst(x, s, key);
      } else {
        var rest := InsertBy(x, s[1..], key);
        InsertBySorts(x, s[1..], key);
        forall j | 0 <= j < |rest| ensures !Less(key(rest[j]), key(s[0])) {
          assert rest[j] in multiset(rest);
          if rest[j] != x {
            assert rest[j] in s[1..];
          }
        }
      }
    }
  }

  lemma {:induction false} SortBySorts<T>(s: seq<T>, key: T -> string)
    ensures SortedBy(SortBy(s, key), key) && multiset(SortBy(s, key)) == multiset(s)
  {
    if s != [] {
      SortBySorts(s[1..], key);
      InsertBySorts(s[0], SortBy(s[1..], key), key);
      assert s == [s[0]] + s[1..];
    }
  }

  function InstanceSid(): Instance -> string { (i: Instance) => i.sid }
  function RowSid(): Row -> string { (r: Row) => r.sid }

  // ---------------------------------------------------------------- what the table is

  /** The first system with its id in the list. */
  predicate IsFirst(list: seq<System>, i: nat)
    requires i < |list|
  {
    forall j | 0 <= j < i :: list[j].id != list[i].id
  }

  /** A service fails for the system. */
  predicate Fails(s: System, tags: Tags, attached: Attached) {
    tags(s.kind, s.id).None? || (s.kind == APPLICATION && attached(s.id).None?)
  }

  /** The databases whose instances are added to the system's own. */
  function AttachedTo(s: System, attached: Attached): seq<System> {
    if s.kind == APPLICATION && attached(s.id).Some? then attached(s.id).value else []
  }

  /** A row without instances as it is made for the first system of its id. */
  function NewRow(s: System, tags: Tags, attached: Attached): Row
    requires !Fails(s, tags, attached)
  {
    var databases := AttachedTo(s, attached);
    Row(s.id, s.sid, if databases == [] then "" else databases[0].sid, if databases == [] then "" else databases[0].id,
        tags(s.kind, s.id).value, [], false)
  }

  /** The attached database whose number the key is, if it has instances. */
  function NumberedBy(databases: seq<System>, key: string): (d: Option<nat>)
    ensures d.Some? ==> d.value < |databases| && Text(d.value) == key && databases[d.value].instances != map[]
  {
    if databases == [] then None
    else
      var n := |databases| - 1;
      if Text(n) == key && databases[n].instances != map[] then Some(n) else NumberedBy(databases[..n], key)
  }

  lemma TextsDiffer(a: nat, b: nat)
    requires a != b
    ensures Text(a) != Text(b)
  {
    UnboundedOfText(a);
    UnboundedOfText(b);
  }

  predicate IsExtendedAt(before: map<string, Instance>, databases: seq<System>, after: map<string, Instance>,
      key: string)
  {
    match NumberedBy(databases, key)
    case Some(d) => key in after && after[key] in databases[d].instances.Values
    case None => (key in after <==> key in before) && (key in after ==> after[key] == before[key])
  }

  /** Under the number of each attached database that has instances there is one of them; everything
      else is as before. */
  ghost predicate IsExtended(before: map<string, Instance>, databases: seq<System>, after: map<string, Instance>) {
    forall key :: IsExtendedAt(before, databases, after, key)
  }

  /** The list holds each instance of the map once. */
  ghost predicate Lists(rows: seq<Instance>, m: map<string, Instance>) {
    exists keys: seq<string> ::
      && |keys| == |rows| == |m|
      && (forall i | 0 <= i < |keys| :: keys[i] in m && rows[i] == m[keys[i]])
      && forall i, j | 0 <= i < j < |keys| :: keys[i] != keys[j]
  }

  /** The instances of all systems with the id. */
  function InstancesOf(parts: seq<seq<Instance>>, list: seq<System>, id: string): multiset<Instance>
    requires |parts| <= |list|
  {
    if parts == [] then multiset{}
    else
      var n := |parts| - 1;
      InstancesOf(parts[..n], list, id) + if list[n].id == id then multiset(parts[n]) else multiset{}
  }

  // ---------------------------------------------------------------- building it

  method Extend(before: map<string, Instance>, databases: seq<System>) returns (after: map<string, Instance>)
    ensures IsExtended(before, databases, after)
  {
    after := before;
    for d := 0 to |databases|
      invariant IsExtended(before, databases[..d], after)
    {
      ghost var was := after;
      var names := databases[d].instances.Keys;
      while names != {}
        invariant names <= databases[d].instances.Keys
        invariant names == databases[d].instances.Keys ==> after == was
        invariant names != databases[d].instances.Keys ==>
          Text(d) in after && after == was[Text(d) := after[Text(d)]] && after[Text(d)] in databases[d].instances.Values
        decreases names
      {
        var name :| name in names;
        after := after[Text(d) := databases[d].instances[name]];
        names := names - {name};
      }
      ExtendedOnce(before, databases, d, was, after);
    }
    assert databases[..|databases|] == databases;
  }

  /** One of the instances has been put under the number of its database. */
  predicate IsAdded(was: map<string, Instance>, d: nat, instances: map<string, Instance>,
      after: map<string, Instance>)
  {
    Text(d) in after && after == was[Text(d) := after[Text(d)]] && after[Text(d)] in instances.Values
  }

  lemma ExtendedOnce(before: map<string, Instance>, databases: seq<System>, d: nat, was: map<string, Instance>,
      after: map<string, Instance>)
    requires d < |databases| && IsExtended(before, databases[..d], was)
    requires if databases[d].instances == map[] then after == was else IsAdded(was, d, databases[d].instances, after)
    ensures IsExtended(before, databases[..d + 1], after)
  {
    var upTo := databases[..d + 1];
    assert upTo[..d] == databases[..d];
    forall key ensures IsExtendedAt(before, upTo, after, key) {
      assert IsExtendedAt(before, databases[..d], was, key);
    }
  }

  method InstanceRows(m: map<string, Instance>) returns (rows: seq<Instance>)
    ensures Lists(rows, m)
  {
    rows := [];
    var names := m.Keys;
    ghost var keys: seq<string> := [];
    while names != {}
      invariant names <= m.Keys && |keys| == |rows| && |names| + |keys| == |m.Keys|
      invariant forall i | 0 <= i < |keys| :: keys[i] in m && keys[i] !in names && rows[i] == m[keys[i]]
      invariant forall i, j | 0 <= i < j < |keys| :: keys[i] != keys[j]
      decreases names
    {
      var name :| name in names;
      rows := rows + [m[name]];
      keys := keys + [name];
      names := names - {name};
    }
  }

  /** The row is one made for the first system of its id, which is among the first n. */
  ghost predicate HasHead(r: Row, list: seq<System>, n: nat, tags: Tags, attached: Attached)
    requires n <= |list|
  {
    exists i: nat :: i < n && list[i].id == r.id && IsFirst(list, i) && !Fails(list[i], tags, attached)
      && r.(instances := []) == NewRow(list[i], tags, attached)
  }

  /** The row of an id after the systems of which parts has the instances. */
  ghost predicate IsRow(r: Row, id: string, list: seq<System>, parts: seq<seq<Instance>>, tags: Tags,
      attached: Attached)
    requires |parts| <= |list|
  {
    && r.id == id && HasHead(r, list, |parts|, tags, attached)
    && SortedBy(r.instances, InstanceSid()) && multiset(r.instances) == InstancesOf(parts, list, id)
  }

  /** A row for each id that has come up. */
  ghost predicate AreRows(rows: map<string, Row>, list: seq<System>, parts: seq<seq<Instance>>, tags: Tags,
      attached: Attached)
    requires |parts| <= |list|
  {
    && (forall id | id in rows :: IsRow(rows[id], id, list, parts, tags, attached))
    && forall i | 0 <= i < |parts| :: list[i].id in rows
  }

  lemma HeadStays(r: Row, r': Row, list: seq<System>, n: nat, tags: Tags, attached: Attached)
    requires n < |list| && HasHead(r, list, n, tags, attached) && r'.(instances := []) == r.(instances := [])
    ensures HasHead(r', list, n + 1, tags, attached)
  {
    var i: nat :| i < n && list[i].id == r.id && IsFirst(list, i) && !Fails(list[i], tags, attached)
      && r.(instances := []) == NewRow(list[i], tags, attached);
    assert r'.id == r'.(instances := []).id == r.id;
    assert r'.(instances := []) == NewRow(list[i], tags, attached);
  }

  lemma OneMorePart(parts: seq<seq<Instance>>, list: seq<System>, part: seq<Instance>, id: string)
    requires |parts| < |list|
    ensures InstancesOf(parts + [part], list, id) ==
      InstancesOf(parts, list, id) + if list[|parts|].id == id then multiset(part) else multiset{}
  {
    assert (parts + [part])[..|parts|] == parts;
  }

  lemma {:induction false} NoInstancesYet(rows: map<string, Row>, list: seq<System>, parts: seq<seq<Instance>>,
      id: string)
    requires |parts| <= |list| && id !in rows && forall i | 0 <= i < |parts| :: list[i].id in rows
    ensures InstancesOf(parts, list, id) == multiset{}
  {
    if parts != [] {
      NoInstancesYet(rows, list, parts[..|parts| - 1], id);
    }
  }

  lemma OtherRow(r: Row, list: seq<System>, parts: seq<seq<Instance>>, part: seq<Instance>, tags: Tags,
      attached: Attached)
    requires |parts| < |list| && IsRow(r, r.id, list, parts, tags, attached) && list[|parts|].id != r.id
    ensures IsRow(r, r.id, list, parts + [part], tags, attached)
  {
    OneMorePart(parts, list, part, r.id);
    HeadStays(r, r, list, |parts|, tags, attached);
  }

  lemma SameRow(before: Row, r: Row, list: seq<System>, parts: seq<seq<Instance>>, part: seq<Instance>, tags: Tags,
      attached: Attached)
    requires |parts| < |list| && IsRow(before, before.id, list, parts, tags, attached) && list[|parts|].id == before.id
    requires r.(instances := []) == before.(instances := []) && SortedBy(r.instances, InstanceSid())
    requires multiset(r.instances) == multiset(before.instances) + multiset(part)
    ensures IsRow(r, before.id, list, parts + [part], tags, attached)
  {
    OneMorePart(parts, list, part, before.id);
    HeadStays(before, r, list, |parts|, tags, attached);
    assert r.id == r.(instances := []).id;
  }

  lemma FirstRow(rows: map<string, Row>, r: Row, list: seq<System>, parts: seq<seq<Instance>>, part: seq<Instance>,
      tags: Tags, attached: Attached)
    requires |parts| < |list| && r.id !in rows && forall i | 0 <= i < |parts| :: list[i].id in rows
    requires r.id == list[|parts|].id && !Fails(list[|parts|], tags, attached)
    requires r.(instances := []) == NewRow(list[|parts|], tags, attached) && SortedBy(r.instances, InstanceSid())
    requires multiset(r.instances) == multiset(part)
    ensures IsRow(r, r.id, list, parts + [part], tags, attached)
  {
    NoInstancesYet(rows, list, parts, r.id);
    OneMorePart(parts, list, part, r.id);
    assert IsFirst(list, |parts|);
  }

  lemma RowsStep(rows: map<string, Row>, list: seq<System>, parts: seq<seq<Instance>>, part: seq<Instance>, r: Row,
      tags: Tags, attached: Attached)
    requires |parts| < |list| && AreRows(rows, list, parts, tags, attached) && r.id == list[|parts|].id
    requires IsRow(r, r.id, list, parts + [part], tags, attached)
    ensures AreRows(rows[r.id := r], list, parts + [part], tags, attached)
  {
    forall id | id in rows && id != r.id ensures IsRow(rows[id], id, list, parts + [part], tags, attached) {
      assert IsRow(rows[id], id, list, parts, tags, attached);
      OtherRow(rows[id], list, parts, part, tags, attached);
    }
  }

  // ---------------------------------------------------------------- counting SIDs

  function IdsWith(rows: map<string, Row>, sid: string): set<string> {
    set id | id in rows && rows[id].sid == sid
  }

  function CountOf(sids: map<string, nat>, sid: string): nat {
    if sid in sids then sids[sid] else 0
  }

  /** How many rows have each SID. */
  ghost predicate AreCounts(sids: map<string, nat>, rows: map<string, Row>) {
    forall sid :: CountOf(sids, sid) == |IdsWith(rows, sid)|
  }

  lemma IdsStep(rows: map<string, Row>, r: Row, sid: string)
    requires r.id !in rows
    ensures |IdsWith(rows[r.id := r], sid)| == |IdsWith(rows, sid)| + if sid == r.sid then 1 else 0
  {
    var ids, ids' := IdsWith(rows, sid), IdsWith(rows[r.id := r], sid);
    assert r.id !in ids;
    if sid == r.sid {
      assert ids' == ids + {r.id};
    } else {
      assert ids' == ids;
    }
  }

  lemma CountsStep(sids: map<string, nat>, rows: map<string, Row>, r: Row)
    requires AreCounts(sids, rows) && r.id !in rows
    ensures AreCounts(sids[r.sid := CountOf(sids, r.sid) + 1], rows[r.id := r])
  {
    var sids', rows' := sids[r.sid := CountOf(sids, r.sid) + 1], rows[r.id := r];
    forall sid ensures CountOf(sids', sid) == |IdsWith(rows', sid)| {
      assert CountOf(sids, sid) == |IdsWith(rows, sid)|;
      IdsStep(rows, r, sid);
    }
  }

  lemma CountsStay(sids: map<string, nat>, rows: map<string, Row>, r: Row)
    requires AreCounts(sids, rows) && r.id in rows && rows[r.id].sid == r.sid
    ensures AreCounts(sids, rows[r.id := r])
  {
    forall sid ensures IdsWith(rows[r.id := r], sid) == IdsWith(rows, sid) {
    }
  }

  /** A count of more than one is another row with the same SID. */
  lemma CountedTwice(rows: map<string, Row>, id: string)
    requires id in rows
    ensures |IdsWith(rows, rows[id].sid)| > 1 <==>
      exists id' :: id' in rows && id' != id && rows[id'].sid == rows[id].sid
  {
    var ids := IdsWith(rows, rows[id].sid);
    assert id in ids;
    assert |ids| == 1 + |ids - {id}|;
    if id' :| id' in rows && id' != id && rows[id'].sid == rows[id].sid {
      assert id' in ids - {id};
    }
    if |ids - {id}| > 0 {
      var id' :| id' in ids - {id};
      assert id' in rows;
    }
  }

  // ---------------------------------------------------------------- the table

  /** A system as it is left: the first of its id has instances of its databases added. */
  ghost predicate IsLeft(list: seq<System>, i: nat, s: System, attached: Attached)
    requires i < |list|
  {
    && s.(instances := list[i].instances) == list[i]
    && if IsFirst(list, i) then IsExtended(list[i].instances, AttachedTo(list[i], attached), s.instances)
       else s.instances == list[i].instances
  }

  lemma FirstIfNoRow(list: seq<System>, rows: map<string, Row>, parts: seq<seq<Instance>>, tags: Tags,
      attached: Attached)
    requires |parts| < |list| && AreRows(rows, list, parts, tags, attached)
    ensures IsFirst(list, |parts|) <==> list[|parts|].id !in rows
  {
    var id := list[|parts|].id;
    if id in rows {
      assert IsRow(rows[id], id, list, parts, tags, attached);
    }
  }

  /** The systems as they are left, and the lists of their instances. */
  ghost predicate AreLeft(list: seq<System>, systems: seq<System>, parts: seq<seq<Instance>>, attached: Attached) {
    && |systems| == |parts| <= |list|
    && forall i | 0 <= i < |systems| :: IsLeft(list, i, systems[i], attached) && Lists(parts[i], systems[i].instances)
  }

  /** The row of a system that is the first of its id. */
  method MakeRow(list: seq<System>, i: nat, tags: Tags, attached: Attached) returns (failed: bool, row: Row, s: System)
    requires i < |list| && IsFirst(list, i)
    ensures failed <==> Fails(list[i], tags, attached)
    ensures !failed ==> row == NewRow(list[i], tags, attached) && IsLeft(list, i, s, attached)
  {
    s := list[i];
    row := Row(s.id, s.sid, "", "", [], [], false);
    var systemTags := tags(s.kind, s.id);
    if systemTags == None {
      return true, row, s;
    }
    row := row.(tags := systemTags.value);
    if s.kind == APPLICATION {
      var attachedDatabases := attached(s.id);
      if attachedDatabases == None {
        return true, row, s;
      }
      if |attachedDatabases.value| > 0 {
        row := row.(attachedSid := attachedDatabases.value[0].sid, attachedId := attachedDatabases.value[0].id);
      }
      var instances := Extend(s.instances, attachedDatabases.value);
      s := s.(instances := instances);
    }
    failed := false;
  }

  /** The row of an id so far, or the one that has just been made for it. */
  ghost predicate IsRowOrNew(row: Row, list: seq<System>, rows: map<string, Row>, parts: seq<seq<Instance>>,
      tags: Tags, attached: Attached)
    requires |parts| < |list|
  {
    if list[|parts|].id in rows then row == rows[list[|parts|].id]
    else !Fails(list[|parts|], tags, attached) && row == NewRow(list[|parts|], tags, attached)
  }

  lemma RowGrows(
      row: Row, r: Row, list: seq<System>, rows: map<string, Row>, parts: seq<seq<Instance>>, part: seq<Instance>,
      tags: Tags, attached: Attached)
    requires |parts| < |list| && AreRows(rows, list, parts, tags, attached) &&
      IsRowOrNew(row, list, rows, parts, tags, attached)
    requires r == row.(instances := SortBy(row.instances + part, InstanceSid()))
    ensures r.id == list[|parts|].id && r.sid == row.sid &&
      AreRows(rows[r.id := r], list, parts + [part], tags, attached)
  {
    SortBySorts(row.instances + part, InstanceSid());
    assert r.(instances := []) == row.(instances := []);
    if list[|parts|].id in rows {
      assert IsRow(row, list[|parts|].id, list, parts, tags, attached);
      SameRow(row, r, list, parts, part, tags, attached);
    } else {
      FirstRow(rows, r, list, parts, part, tags, attached);
    }
    RowsStep(rows, list, parts, part, r, tags, attached);
  }

  /** One turn of the loop over the systems. */
  method AddSystem(list: seq<System>, i: nat, rows: map<string, Row>, sids: map<string, nat>,
      ghost parts: seq<seq<Instance>>,
                   tags: Tags, attached: Attached)
    returns (failed: bool, rows': map<string, Row>, sids': map<string, nat>, s: System, part: seq<Instance>)
    requires i < |list| && |parts| == i && AreRows(rows, list, parts, tags, attached) && AreCounts(sids, rows)
    ensures failed <==> IsFirst(list, i) && Fails(list[i], tags, attached)
    ensures !failed ==> AreRows(rows', list, parts + [part], tags, attached) && AreCounts(sids', rows')
    ensures !failed ==> IsLeft(list, i, s, attached) && Lists(part, s.instances)
  {
    FirstIfNoRow(list, rows, parts, tags, attached);
    s, rows', sids', part := list[i], rows, sids, [];
    var row: Row;
    if s.id in rows {
      row := rows[s.id];
    } else {
      failed, row, s := MakeRow(list, i, tags, attached);
      if failed {
        return;
      }
      sids' := sids[s.sid := CountOf(sids, s.sid) + 1];
    }
    failed := false;
    part := InstanceRows(s.instances);
    var r := row.(instances := SortBy(row.instances + part, InstanceSid()));
    RowGrows(row, r, list, rows, parts, part, tags, attached);
    rows' := rows[s.id := r];
    if s.id in rows {
      CountsStay(sids, rows, r);
    } else {
      CountsStep(sids, rows, r);
    }
  }

  ghost predicate DistinctIds(table: seq<Row>) {
    forall i, j | 0 <= i < j < |table| :: table[i].id != table[j].id
  }

  lemma OccursOnce(s: seq<Row>, r: Row)
    requires DistinctIds(s) && r in s
    ensures multiset(s)[r] == 1
  {
    var k :| 0 <= k < |s| && s[k] == r;
    assert s == s[..k] + [s[k]] + s[k + 1..];
    assert r !in s[..k] && r !in s[k + 1..];
  }

  lemma OccursTwice(t: seq<Row>, i: nat, j: nat)
    requires i < j < |t|
    ensures t[i] == t[j] ==> multiset(t)[t[i]] >= 2
  {
    assert t == t[..i] + [t[i]] + t[i + 1..];
    assert t[i + 1..][j - i - 1] == t[j];
  }

  lemma DistinctIdsArePermuted(s: seq<Row>, t: seq<Row>)
    requires DistinctIds(s) && multiset(s) == multiset(t)
    ensures DistinctIds(t)
  {
    forall i, j | 0 <= i < j < |t| ensures t[i].id != t[j].id {
      assert t[i] in multiset(s) && t[j] in multiset(s);
      OccursOnce(s, t[i]);
      OccursTwice(t, i, j);
    }
  }

  function Flagged(r: Row, sids: map<string, nat>): Row {
    r.(hasDuplicatedSid := r.hasDuplicatedSid || CountOf(sids, r.sid) > 1)
  }

  method SetFlags(unflagged: seq<Row>, sids: map<string, nat>) returns (table: seq<Row>)
    ensures |table| == |unflagged| && forall j | 0 <= j < |table| :: table[j] == Flagged(unflagged[j], sids)
  {
    table := unflagged;
    for i := 0 to |table|
      invariant |table| == |unflagged|
      invariant forall j | 0 <= j < |table| :: table[j] == if j < i then Flagged(unflagged[j], sids) else unflagged[j]
    {
      if CountOf(sids, table[i].sid) > 1 {
        table := table[i := table[i].(hasDuplicatedSid := true)];
      }
    }
  }

  /** The rows in any order, flagged and sorted. */
  method Collect(rows: map<string, Row>, sids: map<string, nat>) returns (table: seq<Row>)
    requires forall id | id in rows :: rows[id].id == id
    ensures SortedBy(table, RowSid()) && DistinctIds(table)
    ensures forall r :: r in table <==> exists id :: id in rows && r == Flagged(rows[id], sids)
  {
    table := [];
    var ids := rows.Keys;
    while ids != {}
      invariant ids <= rows.Keys && DistinctIds(table)
      invariant forall r | r in table :: r.id in rows && r.id !in ids && r == rows[r.id]
      invariant forall id | id in rows && id !in ids :: rows[id] in table
      decreases ids
    {
      var id :| id in ids;
      table := table + [rows[id]];
      ids := ids - {id};
    }
    ghost var unflagged := table;
    table := SetFlags(table, sids);
    forall r ensures r in table <==> exists id :: id in rows && r == Flagged(rows[id], sids) {
      if id :| id in rows && r == Flagged(rows[id], sids) {
        var j :| 0 <= j < |unflagged| && unflagged[j] == rows[id];
        assert table[j] == r;
      }
    }
    SortBySorts(table, RowSid());
    DistinctIdsArePermuted(table, SortBy(table, RowSid()));
    forall r ensures r in table <==> r in SortBy(table, RowSid()) {
      assert r in table <==> r in multiset(table);
    }
    table := SortBy(table, RowSid());
  }

  predicate HasRow(table: seq<Row>, id: string) {
    exists r :: r in table && r.id == id
  }

  /** One row for each id of the list, made from the first system with this id and with the instances
      of all systems with this id; the rows sorted by SID; a row is flagged if and only if another
      row has its SID. */
  ghost predicate IsTable(table: seq<Row>, list: seq<System>, parts: seq<seq<Instance>>, tags: Tags, attached: Attached)
    requires |parts| <= |list|
  {
    && SortedBy(table, RowSid()) && DistinctIds(table)
    && (forall i | 0 <= i < |parts| :: HasRow(table, list[i].id))
    && (forall r | r in table :: IsRow(r.(hasDuplicatedSid := false), r.id, list, parts, tags, attached))
    && forall r | r in table :: r.hasDuplicatedSid <==> exists r' :: r' in table && r'.id != r.id && r'.sid == r.sid
  }

  /** The rows and the table collected from them. */
  ghost predicate IsCollected(rows: map<string, Row>, sids: map<string, nat>, table: seq<Row>) {
    && AreCounts(sids, rows)
    && (forall id | id in rows :: rows[id].id == id && !rows[id].hasDuplicatedSid)
    && SortedBy(table, RowSid()) && DistinctIds(table)
    && forall r :: r in table <==> exists id :: id in rows && r == Flagged(rows[id], sids)
  }

  lemma FlagIsExact(rows: map<string, Row>, sids: map<string, nat>, table: seq<Row>, id: string)
    requires IsCollected(rows, sids, table) && id in rows
    ensures Flagged(rows[id], sids).hasDuplicatedSid <==>
      exists r' :: r' in table && r'.id != id && r'.sid == rows[id].sid
  {
    CountedTwice(rows, id);
    assert CountOf(sids, rows[id].sid) == |IdsWith(rows, rows[id].sid)|;
    if id' :| id' in rows && id' != id && rows[id'].sid == rows[id].sid {
      assert Flagged(rows[id'], sids) in table;
    }
    if r' :| r' in table && r'.id != id && r'.sid == rows[id].sid {
      var id' :| id' in rows && r' == Flagged(rows[id'], sids);
    }
  }

  lemma CollectedIsTable(
      rows: map<string, Row>, sids: map<string, nat>, table: seq<Row>, list: seq<System>, parts: seq<seq<Instance>>,
      tags: Tags, attached: Attached)
    requires |parts| <= |list| && AreRows(rows, list, parts, tags, attached) && IsCollected(rows, sids, table)
    ensures IsTable(table, list, parts, tags, attached)
  {
    forall i | 0 <= i < |parts| ensures HasRow(table, list[i].id) {
      assert Flagged(rows[list[i].id], sids) in table;
    }
    forall r | r in table
      ensures IsRow(r.(hasDuplicatedSid := false), r.id, list, parts, tags, attached)
      ensures r.hasDuplicatedSid <==> exists r' :: r' in table && r'.id != r.id && r'.sid == r.sid
    {
      var id :| id in rows && r == Flagged(rows[id], sids);
      assert r.(hasDuplicatedSid := false) == rows[id];
      FlagIsExact(rows, sids, table, id);
    }
  }

  lemma RowsAreUnflagged(rows: map<string, Row>, list: seq<System>, parts: seq<seq<Instance>>, tags: Tags,
      attached: Attached)
    requires |parts| <= |list| && AreRows(rows, list, parts, tags, attached)
    ensures forall id | id in rows :: rows[id].id == id && !rows[id].hasDuplicatedSid
  {
    forall id | id in rows ensures rows[id].id == id && !rows[id].hasDuplicatedSid {
      assert IsRow(rows[id], id, list, parts, tags, attached);
      assert rows[id].hasDuplicatedSid == rows[id].(instances := []).hasDuplicatedSid;
    }
  }

  lemma OneMoreLeft(list: seq<System>, systems: seq<System>, parts: seq<seq<Instance>>, s: System,
      part: seq<Instance>, attached: Attached)
    requires AreLeft(list, systems, parts, attached) && |parts| < |list|
    requires IsLeft(list, |parts|, s, attached) && Lists(part, s.instances)
    ensures AreLeft(list, systems + [s], parts + [part], attached)
  {
  }

  /** No service has failed for the first n systems. */
  ghost predicate NoneFails(list: seq<System>, n: nat, tags: Tags, attached: Attached)
    requires n <= |list|
  {
    forall j | 0 <= j < n :: !(IsFirst(list, j) && Fails(list[j], tags, attached))
  }

  /** What holds after the systems that parts has the instances of. */
  ghost predicate Progress(
      list: seq<System>, rows: map<string, Row>, sids: map<string, nat>, systems: seq<System>,
      parts: seq<seq<Instance>>,
      tags: Tags, attached: Attached)
  {
    && |parts| <= |list| && AreLeft(list, systems, parts, attached) && NoneFails(list, |parts|, tags, attached)
    && AreRows(rows, list, parts, tags, attached) && AreCounts(sids, rows)
  }

  lemma ProgressAtStart(list: seq<System>, tags: Tags, attached: Attached)
    ensures Progress(list, map[], map[], [], [], tags, attached)
  {
    var none: map<string, Row> := map[];
    assert forall sid :: IdsWith(none, sid) == {};
  }

  lemma ProgressStep(
      list: seq<System>, systems: seq<System>, parts: seq<seq<Instance>>, rows': map<string, Row>,
      sids': map<string, nat>,
      s: System, part: seq<Instance>, tags: Tags, attached: Attached)
    requires |parts| < |list| && AreLeft(list, systems, parts, attached) && NoneFails(list, |parts|, tags, attached)
    requires !(IsFirst(list, |parts|) && Fails(list[|parts|], tags, attached))
    requires AreRows(rows', list, parts + [part], tags, attached) && AreCounts(sids', rows')
    requires IsLeft(list, |parts|, s, attached) && Lists(part, s.instances)
    ensures Progress(list, rows', sids', systems + [s], parts + [part], tags, attached)
  {
    OneMoreLeft(list, systems, parts, s, part, attached);
  }

  method Turn(list: seq<System>, rows: map<string, Row>, sids: map<string, nat>, systems: seq<System>,
      ghost parts: seq<seq<Instance>>,
              tags: Tags, attached: Attached)
    returns (failed: bool, rows': map<string, Row>, sids': map<string, nat>, systems': seq<System>,
             ghost parts': seq<seq<Instance>>)
    requires Progress(list, rows, sids, systems, parts, tags, attached) && |systems| < |list|
    ensures failed ==> !NoneFails(list, |list|, tags, attached)
    ensures !failed ==> Progress(list, rows', sids', systems', parts', tags, attached) && |systems'| == |systems| + 1
  {
    var s, part;
    systems', parts' := systems, parts;
    failed, rows', sids', s, part := AddSystem(list, |systems|, rows, sids, parts, tags, attached);
    if failed {
      return;
    }
    ProgressStep(list, systems, parts, rows', sids', s, part, tags, attached);
    systems', parts' := systems + [s], parts + [part];
  }

  /** The loop over the systems. */
  method AddSystems(list: seq<System>, tags: Tags, attached: Attached)
    returns (failed: bool, rows: map<string, Row>, sids: map<string, nat>, systems: seq<System>,
      ghost parts: seq<seq<Instance>>)
    ensures failed ==> !NoneFails(list, |list|, tags, attached)
    ensures !failed ==> |parts| == |list| && Progress(list, rows, sids, systems, parts, tags, attached)
  {
    failed, rows, sids, systems, parts := false, map[], map[], [], [];
    ProgressAtStart(list, tags, attached);
    while |systems| < |list|
      invariant !failed && |systems| == |parts| <= |list| && Progress(list, rows, sids, systems, parts, tags, attached)
      decreases |list| - |systems|
    {
      failed, rows, sids, systems, parts := Turn(list, rows, sids, systems, parts, tags, attached);
      if failed {
        return;
      }
    }
  }

  /** The table, and the systems as they are left: databases' instances have been added to the first
      system of an id in place. An error of a service for the first system of an id ends it. */
  method NewSAPSystemsTable(list: seq<System>, tags: Tags, attached: Attached)
    returns (failed: bool, table: seq<Row>, systems: seq<System>, ghost parts: seq<seq<Instance>>)
    ensures failed <==> !NoneFails(list, |list|, tags, attached)
    ensures !failed ==> |parts| == |list| && AreLeft(list, systems, parts, attached)
    ensures !failed ==> IsTable(table, list, parts, tags, attached)
  {
    var rows, sids;
    table := [];
    failed, rows, sids, systems, parts := AddSystems(list, tags, attached);
    if failed {
      return;
    }
    RowsAreUnflagged(rows, list, parts, tags, attached);
    table := Collect(rows, sids);
    CollectedIsTable(rows, sids, table, list, parts, tags, attached);
  }

  // ---------------------------------------------------------------- nothing is lost

  function InstanceCount(table: seq<Row>): nat {
    if table == [] then 0 else InstanceCount(table[..|table| - 1]) + |table[|table| - 1].instances|
  }

  function SystemInstanceCount(systems: seq<System>): nat {
    if systems == [] then 0 else SystemInstanceCount(systems[..|systems| - 1]) + |systems[|systems| - 1].instances|
  }

  /** The instances of the rows' ids. */
  function CountFor(table: seq<Row>, parts: seq<seq<Instance>>, list: seq<System>): nat
    requires |parts| <= |list|
  {
    if table == [] then 0
    else CountFor(table[..|table| - 1], parts, list) + |InstancesOf(parts, list, table[|table| - 1].id)|
  }

  lemma {:induction false} CountForNone(table: seq<Row>, list: seq<System>)
    ensures CountFor(table, [], list) == 0
  {
    if table != [] {
      CountForNone(table[..|table| - 1], list);
    }
  }

  lemma {:induction false} CountForOneMore(table: seq<Row>, parts: seq<seq<Instance>>, part: seq<Instance>,
      list: seq<System>)
    requires DistinctIds(table) && |parts| < |list|
    ensures CountFor(table, parts + [part], list) ==
      CountFor(table, parts, list) + if HasRow(table, list[|parts|].id) then |part| else 0
  {
    if table != [] {
      var n, id := |table| - 1, list[|parts|].id;
      CountForOneMore(table[..n], parts, part, list);
      OneMorePart(parts, list, part, table[n].id);
      assert forall i | 0 <= i < n :: table[..n][i] == table[i];
      assert table == table[..n] + [table[n]];
      if table[n].id == id {
        assert table[n] in table;
        assert HasRow(table, id) && !HasRow(table[..n], id);
      } else {
        assert HasRow(table, id) <==> HasRow(table[..n], id);
      }
    }
  }

  lemma {:induction false} CountForAll(table: seq<Row>, systems: seq<System>, parts: seq<seq<Instance>>,
      list: seq<System>)
    requires DistinctIds(table) && |systems| == |parts| <= |list|
    requires forall i | 0 <= i < |parts| :: HasRow(table, list[i].id) && |parts[i]| == |systems[i].instances|
    ensures CountFor(table, parts, list) == SystemInstanceCount(systems)
  {
    if parts == [] {
      CountForNone(table, list);
    } else {
      var n := |parts| - 1;
      CountForAll(table, systems[..n], parts[..n], list);
      CountForOneMore(table, parts[..n], parts[n], list);
      assert parts == parts[..n] + [parts[n]];
    }
  }

  lemma {:induction false} RowsHaveTheirInstances(table: seq<Row>, parts: seq<seq<Instance>>, list: seq<System>)
    requires |parts| <= |list| && forall r | r in table :: multiset(r.instances) == InstancesOf(parts, list, r.id)
    ensures InstanceCount(table) == CountFor(table, parts, list)
  {
    if table != [] {
      var n := |table| - 1;
      RowsHaveTheirInstances(table[..n], parts, list);
      assert table[n] in table;
      assert |multiset(table[n].instances)| == |table[n].instances|;
    }
  }

  /** The rows have as many instances as the systems that are left, together. */
  lemma InstancesAreConserved(
      table: seq<Row>, list: seq<System>, systems: seq<System>, parts: seq<seq<Instance>>, tags: Tags,
      attached: Attached)
    requires |parts| == |list| && AreLeft(list, systems, parts, attached) && IsTable(table, list, parts, tags, attached)
    ensures InstanceCount(table) == SystemInstanceCount(systems)
  {
    forall r | r in table ensures multiset(r.instances) == InstancesOf(parts, list, r.id) {
      assert IsRow(r.(hasDuplicatedSid := false), r.id, list, parts, tags, attached);
    }
    RowsHaveTheirInstances(table, parts, list);
    CountForAll(table, systems, parts, list);
  }

  /** A row has the SID and tags of the first system of its id, and the SID and id of the first database
      attached to it if that is an application system with any. */
  lemma RowShowsFirstSystem(
      table: seq<Row>, list: seq<System>, parts: seq<seq<Instance>>, tags: Tags, attached: Attached, r: Row)
    returns (i: nat)
    requires |parts| <= |list| && IsTable(table, list, parts, tags, attached) && r in table
    ensures i < |list| && list[i].id == r.id && forall j | 0 <= j < i :: list[j].id != r.id
    ensures r.sid == list[i].sid && tags(list[i].kind, r.id) == Some(r.tags)
    ensures if list[i].kind == 2 && attached(r.id) != Some([])
            then attached(r.id).Some?
              && r.attachedSid == attached(r.id).value[0].sid && r.attachedId == attached(r.id).value[0].id
            else r.attachedSid == "" && r.attachedId == ""
  {
    var plain := r.(hasDuplicatedSid := false);
    assert IsRow(plain, r.id, list, parts, tags, attached);
    i :| i < |parts| && list[i].id == plain.id && IsFirst(list, i) && !Fails(list[i], tags, attached)
      && plain.(instances := []) == NewRow(list[i], tags, attached);
  }

  // ---------------------------------------------------------------- what is lost

  /** The number of instances of the databases together. */
  function AttachedCount(databases: seq<System>): nat {
    if databases == [] then 0
    else AttachedCount(databases[..|databases| - 1]) + |databases[|databases| - 1].instances|
  }

  /** The keys after extending. */
  function ExtendedKeys(keys: set<string>, databases: seq<System>): set<string> {
    if databases == [] then keys
    else
      var n := |databases| - 1;
      ExtendedKeys(keys, databases[..n]) + if databases[n].instances == map[] then {} else {Text(n)}
  }

  lemma {:induction false} ExtendedKeysHave(keys: set<string>, databases: seq<System>, key: string)
    ensures key in ExtendedKeys(keys, databases) <==> key in keys || NumberedBy(databases, key).Some?
  {
    if databases != [] {
      ExtendedKeysHave(keys, databases[..|databases| - 1], key);
    }
  }

  /** A database all of whose instances are added: there is at most one, and its place is free. */
  predicate KeepsAll(keys: set<string>, databases: seq<System>, d: nat)
    requires d < |databases|
  {
    |databases[d].instances| <= 1 && (databases[d].instances != map[] ==> Text(d) !in keys)
  }

  lemma NumberIsNew(keys: set<string>, databases: seq<System>)
    requires databases != []
    ensures var n := |databases| - 1; Text(n) in ExtendedKeys(keys, databases[..n]) <==> Text(n) in keys
  {
    var n := |databases| - 1;
    ExtendedKeysHave(keys, databases[..n], Text(n));
    var d := NumberedBy(databases[..n], Text(n));
    if d.Some? {
      TextsDiffer(d.value, n);
    }
  }

  /** What one more database adds: one key, or none. */
  lemma OneMoreNumber(keys: set<string>, databases: seq<System>)
    requires databases != []
    ensures var n := |databases| - 1;
      |ExtendedKeys(keys, databases)| == |ExtendedKeys(keys, databases[..n])| +
        if databases[n].instances != map[] && Text(n) !in keys then 1 else 0
  {
    var n := |databases| - 1;
    var upTo := ExtendedKeys(keys, databases[..n]);
    NumberIsNew(keys, databases);
    if databases[n].instances == map[] || Text(n) in keys {
      assert ExtendedKeys(keys, databases) == upTo;
    }
  }

  ghost predicate AllAdded(keys: set<string>, databases: seq<System>) {
    forall d: nat | d < |databases| :: KeepsAll(keys, databases, d)
  }

  lemma OneMoreAdded(keys: set<string>, databases: seq<System>)
    requires databases != []
    ensures var n := |databases| - 1;
      AllAdded(keys, databases) <==> AllAdded(keys, databases[..n]) && KeepsAll(keys, databases, n)
  {
    var n := |databases| - 1;
    assert forall d: nat | d < n :: KeepsAll(keys, databases[..n], d) <==> KeepsAll(keys, databases, d);
  }

  lemma {:induction false} ExtendedCount(keys: set<string>, databases: seq<System>)
    ensures |ExtendedKeys(keys, databases)| <= |keys| + AttachedCount(databases)
    ensures |ExtendedKeys(keys, databases)| == |keys| + AttachedCount(databases) <==> AllAdded(keys, databases)
  {
    if databases != [] {
      var n := |databases| - 1;
      ExtendedCount(keys, databases[..n]);
      OneMoreNumber(keys, databases);
      OneMoreAdded(keys, databases);
      assert |databases[n].instances| == 0 <==> databases[n].instances == map[];
    }
  }

  /** No attached instance is lost, and none of the system's own is written over, if and only if every
      attached database has at most one instance and its number is not yet a name. */
  lemma ExtendKeepsAllExactly(before: map<string, Instance>, databases: seq<System>, after: map<string, Instance>)
    requires IsExtended(before, databases, after)
    ensures |after| <= |before| + AttachedCount(databases)
    ensures |after| == |before| + AttachedCount(databases) <==>
      forall d: nat | d < |databases| :: KeepsAll(before.Keys, databases, d)
  {
    forall key ensures key in after <==> key in ExtendedKeys(before.Keys, databases) {
      assert IsExtendedAt(before, databases, after, key);
      ExtendedKeysHave(before.Keys, databases, key);
    }
    assert after.Keys == ExtendedKeys(before.Keys, databases);
    assert |after| == |after.Keys| && |before| == |before.Keys|;
    ExtendedCount(before.Keys, databases);
  }

  /** A database with two instances, such as a primary and a secondary: one of them is lost. */
  lemma SecondInstanceIsLost(database: System, after: map<string, Instance>)
    requires |database.instances| == 2 && IsExtended(map[], [database], after)
    ensures |after| == 1 && AttachedCount([database]) == 2
  {
    var keys := ExtendedKeys({}, [database]);
    assert [database][..0] == [];
    OneMoreNumber({}, [database]);
    assert database.instances != map[];
    forall key ensures key in after <==> key in keys {
      assert IsExtendedAt(map[], [database], after, key);
      ExtendedKeysHave({}, [database], key);
    }
    assert after.Keys == keys;
    assert |after| == |after.Keys|;
  }

  /** What is discovered of the i-th system. */
  function FoundCount(list: seq<System>, i: nat, attached: Attached): nat
    requires i < |list|
  {
    |list[i].instances| + if IsFirst(list, i) then AttachedCount(AttachedTo(list[i], attached)) else 0
  }

  /** The instances of all systems of the list, and of the databases attached to the first system of
      each id. */
  function DiscoveredCount(list: seq<System>, attached: Attached, n: nat): nat
    requires n <= |list|
  {
    if n == 0 then 0
    else DiscoveredCount(list, attached, n - 1) + FoundCount(list, n - 1, attached)
  }

  /** The i-th system is not the first of its id, or all instances attached to it are added. */
  ghost predicate KeepsAttached(list: seq<System>, i: nat, attached: Attached)
    requires i < |list|
  {
    IsFirst(list, i) ==>
      forall d: nat | d < |AttachedTo(list[i], attached)| ::
        KeepsAll(list[i].instances.Keys, AttachedTo(list[i], attached), d)
  }

  lemma LeftCount(list: seq<System>, i: nat, s: System, attached: Attached)
    requires i < |list| && IsLeft(list, i, s, attached)
    ensures |s.instances| <= FoundCount(list, i, attached)
    ensures |s.instances| == FoundCount(list, i, attached) <==> KeepsAttached(list, i, attached)
  {
    if IsFirst(list, i) {
      ExtendKeepsAllExactly(list[i].instances, AttachedTo(list[i], attached), s.instances);
    }
  }

  ghost predicate AllKept(list: seq<System>, n: nat, attached: Attached)
    requires n <= |list|
  {
    forall i: nat | i < n :: KeepsAttached(list, i, attached)
  }

  lemma AllKeptStep(list: seq<System>, n: nat, attached: Attached)
    requires n < |list|
    ensures AllKept(list, n + 1, attached) <==> AllKept(list, n, attached) && KeepsAttached(list, n, attached)
  {
  }

  ghost predicate LeftOf(list: seq<System>, systems: seq<System>, attached: Attached) {
    |systems| <= |list| && forall i | 0 <= i < |systems| :: IsLeft(list, i, systems[i], attached)
  }

  lemma LeftOfPrefix(list: seq<System>, systems: seq<System>, attached: Attached)
    requires LeftOf(list, systems, attached) && systems != []
    ensures LeftOf(list, systems[..|systems| - 1], attached)
    ensures IsLeft(list, |systems| - 1, systems[|systems| - 1], attached)
  {
  }

  lemma {:induction false} SystemsCount(list: seq<System>, systems: seq<System>, attached: Attached)
    requires LeftOf(list, systems, attached)
    ensures SystemInstanceCount(systems) <= DiscoveredCount(list, attached, |systems|)
    ensures SystemInstanceCount(systems) == DiscoveredCount(list, attached, |systems|) <==>
      AllKept(list, |systems|, attached)
  {
    if systems != [] {
      var n := |systems| - 1;
      LeftOfPrefix(list, systems, attached);
      SystemsCount(list, systems[..n], attached);
      LeftCount(list, n, systems[n], attached);
      AllKeptStep(list, n, attached);
    }
  }

  /** The table has all instances that were discovered if and only if every database that is attached
      to the first system of an id has at most one, and its number is not a name there. */
  lemma TableKeepsAllExactly(
      table: seq<Row>, list: seq<System>, systems: seq<System>, parts: seq<seq<Instance>>, tags: Tags,
      attached: Attached)
    requires |parts| == |list| && AreLeft(list, systems, parts, attached) && IsTable(table, list, parts, tags, attached)
    ensures InstanceCount(table) <= DiscoveredCount(list, attached, |list|)
    ensures InstanceCount(table) == DiscoveredCount(list, attached, |list|) <==>
      forall i: nat | i < |list| :: KeepsAttached(list, i, attached)
  {
    InstancesAreConserved(table, list, systems, parts, tags, attached);
    SystemsCount(list, systems, attached);
  }
}
