/** Table rule_conditions: how a condition tree is written, read back and removed
    (backend/database/DBRuleSerialize.cpp, class DBRuleConditionSerialize). */
module ConditionTable {
  import opened Wrappers
  import opened Conditions
  import opened ConditionCodec
  import opened RowKeys

  // One row without its key: condition_type and condition_data
  datatype Row = Row(kind: nat, data: Data)

  type Table = map<nat, Row>

  // ---------- writing ----------

  ghost function RowOf(c: Condition): Row
    requires !c.Null?
  {
    Row(c.Type(), Serialize(c, false).data)
  }

  // One insert of the recursion, with or without a preset id
  ghost function InsertRow(t: Table, c: Condition): Result<(Table, Condition)>
    requires !c.Null?
  {
    if c.id == 0 then
      var id := FreshId(t.Keys);
      Ok((t[id := RowOf(c)], c.WithId(id)))
    else if c.id in t then Err(UniqueConstraint)
    else Ok((t[c.id := RowOf(c)], c))
  }

  /** InsertRuleCondition: children first, left before right, then the node itself. The result holds the new
      table and the tree with the ids SetId gave its nodes. */
  ghost function Insert(t: Table, c: Condition): Result<(Table, Condition)>
    decreases c
  {
    match c
    case Null => Ok((t, c))
    case Compare(id, l, r, op) =>
      var left :- Insert(t, l);
      var right :- Insert(left.0, r);
      InsertRow(right.0, Compare(id, left.1, right.1, op))
    case _ => InsertRow(t, c)
  }

  // RemoveRuleCondition: every node with an id loses its row
  ghost function Remove(t: Table, c: Condition): Table {
    t - c.PresetIds()
  }

  // ---------- reading ----------

  /** GetRuleCondition with RuleCondition::Parse(db). The recursion follows stored ids and has no bound in the
      source; `fuel` bounds it here. */
  ghost function Read(t: Table, id: nat, fuel: nat): Result<Condition>
    decreases fuel, 1
  {
    if fuel == 0 then Err(OutOfFuel)
    else if id !in t then Err(OutOfRange)
    else
      var Row(kind, data) := t[id];
      if kind == 0 then
        if data.BoolData? then Ok(Constant(id, data.value)) else Err(InvalidArgument)
      else if kind == 1 then
        if !data.CompareData? then Err(InvalidArgument) else
        var op :- CompareOpFromInt(data.compare);
        var l :- ReadChild(t, data.leftRef, fuel - 1);
        var r :- ReadChild(t, data.rightRef, fuel - 1);
        Ok(Compare(id, l, r, op))
      else if kind == 2 then TimeFromData(id, data)
      else if kind == 3 then Err(InvalidArgument)
      else Err(OutOfRange)
  }

  ghost function ReadChild(t: Table, ref: Ref, fuel: nat): Result<Condition>
    decreases fuel, 2
  {
    match ref
    case NoRef => Ok(Null)
    case IdRef(id) => Read(t, id, fuel)
    case Embedded(m) => Deserialize(m)
  }

  /** Row by row, table `t` holds tree `c`: what reading must find, said without reading. */
  ghost predicate Stored(t: Table, c: Condition) {
    !c.Null? ==>
      && c.id in t && t[c.id] == RowOf(c)
      && (c.Compare? ==> Stored(t, c.left) && Stored(t, c.right))
  }

  // `t` and `u` have the same rows for the keys in `ids`
  ghost predicate AgreeOn(t: Table, u: Table, ids: set<nat>) {
    forall k :: k in ids ==> (k in t <==> k in u) && (k in t ==> t[k] == u[k])
  }

  lemma {:induction false} StoredIds(t: Table, c: Condition)
    requires Stored(t, c)
    ensures c.Ids() <= t.Keys
  {
    if !c.Compare? {
    } else {
      StoredIds(t, c.left);
      StoredIds(t, c.right);
    }
  }

  lemma {:induction false} StoredFrame(t: Table, u: Table, c: Condition)
    requires Stored(t, c) && AgreeOn(t, u, c.Ids())
    ensures Stored(u, c)
  {
    if !c.Compare? {
    } else {
      StoredFrame(t, u, c.left);
      StoredFrame(t, u, c.right);
    }
  }

  // ---------- what an insert does ----------

  // What a successful insert of `c` promises about its result
  ghost predicate Inserted(t: Table, c: Condition, u: Table, d: Condition) {
    && FillsIds(c, d)
    && d.AllPreset() && d.Distinct()
    && t.Keys !! d.Ids() && u.Keys == t.Keys + d.Ids()
    && AgreeOn(t, u, t.Keys)
    && Stored(u, d)
  }

  // The last insert of the recursion, with the children already stored
  lemma InsertRowStores(t: Table, c: Condition)
    requires !c.Null? && InsertRow(t, c).Ok?
    requires c.Compare? ==>
      && Stored(t, c.left) && c.left.AllPreset() && c.left.Distinct() && c.left.Ids() <= t.Keys
      && Stored(t, c.right) && c.right.AllPreset() && c.right.Distinct() && c.right.Ids() <= t.Keys
      && c.left.Ids() !! c.right.Ids()
    ensures var (u, d) := InsertRow(t, c).value;
      && d.id !in t && u == t[d.id := RowOf(c)] && d == c.WithId(d.id) && (c.id != 0 ==> d.id == c.id)
      && Stored(u, d) && d.Distinct() && d.AllPreset()
  {
    var (u, d) := InsertRow(t, c).value;
    RowIgnoresId(c, d.id);
    if c.Compare? {
      StoredFrame(t, u, c.left);
      StoredFrame(t, u, c.right);
    }
  }

  lemma RowIgnoresId(c: Condition, id: nat)
    requires !c.Null?
    ensures !c.WithId(id).Null? && RowOf(c.WithId(id)) == RowOf(c)
  {
  }

  /** A successful insert gives every node its own non-zero id that no earlier row has, keeps every earlier row,
      adds one row a node and no other, and the new rows hold exactly the tree with its new ids. */
  lemma {:induction false} InsertStores(t: Table, c: Condition)
    requires Insert(t, c).Ok?
    ensures Inserted(t, c, Insert(t, c).value.0, Insert(t, c).value.1)
    decreases c
  {
    match c
    case Null =>
    case Compare(id, left, right, op) =>
      InsertStores(t, left);
      var (t1, l) := Insert(t, left).value;
      InsertStores(t1, right);
      var (t2, r) := Insert(t1, right).value;
      StoredFrame(t1, t2, l);
      InsertRowStores(t2, Compare(id, l, r, op));
    case _ => InsertRowStores(t, c);
  }

  /** Removing a tree right after inserting it gives back the table there was. */
  lemma InsertThenRemove(t: Table, c: Condition)
    requires Insert(t, c).Ok?
    ensures Remove(Insert(t, c).value.0, Insert(t, c).value.1) == t
  {
    InsertStores(t, c);
  }

  // A tree without ids can always be inserted
  lemma {:induction false} InsertUnassigned(t: Table, c: Condition)
    requires c.AllZero()
    ensures Insert(t, c).Ok?
    decreases c
  {
    if !c.Compare? {
    } else {
      InsertUnassigned(t, c.left);
      InsertUnassigned(Insert(t, c.left).value.0, c.right);
    }
  }

  /** A tree that brings all its ids is inserted, as it is, exactly when no id occurs twice and none is taken. */
  lemma {:induction false} InsertPreset(t: Table, c: Condition)
    requires c.AllPreset()
    ensures Insert(t, c).Ok? <==> c.Distinct() && t.Keys !! c.Ids()
    ensures Insert(t, c).Ok? ==> Insert(t, c).value.1 == c
    ensures Insert(t, c).Err? ==> Insert(t, c).error == UniqueConstraint
    decreases c
  {
    if Insert(t, c).Ok? {
      InsertStores(t, c);
      FillsIdsPreset(c, Insert(t, c).value.1);
    }
    if c.Compare? {
      assert c.left.PresetIds() == c.left.Ids() && c.right.PresetIds() == c.right.Ids();
      InsertPreset(t, c.left);
      if Insert(t, c.left).Ok? {
        InsertStores(t, c.left);
        InsertPreset(Insert(t, c.left).value.0, c.right);
        if Insert(Insert(t, c.left).value.0, c.right).Ok? {
          InsertStores(Insert(t, c.left).value.0, c.right);
        }
      }
    }
  }

  // ---------- when an insert succeeds ----------

  // The ids of a tree in the order its nodes are inserted
  ghost function InsertOrder(c: Condition): seq<nat> {
    match c
    case Null => []
    case Compare(i, l, r, _) => InsertOrder(l) + InsertOrder(r) + [i]
    case _ => [c.id]
  }

  ghost function TopKey(keys: set<nat>): nat {
    if keys == {} then 0 else MaxOf(keys)
  }

  // The greatest key after rows with these ids were inserted
  ghost function TopAfter(top: nat, ids: seq<nat>): nat {
    if ids == [] then top
    else
      var before, id := TopAfter(top, ids[..|ids| - 1]), ids[|ids| - 1];
      if id == 0 then before + 1 else if id > before then id else before
  }

  // The key of row `j`
  ghost function KeyOf(top: nat, ids: seq<nat>, j: nat): nat
    requires j < |ids|
  {
    if ids[j] == 0 then TopAfter(top, ids[..j]) + 1 else ids[j]
  }

  /** The condition on the ids of a tree under which it can be inserted: no preset id is taken or occurs twice, and
      none is the number after the greatest key at a node without an id before it. */
  ghost predicate IdsFit(keys: set<nat>, ids: seq<nat>) {
    && (forall k :: 0 <= k < |ids| && ids[k] != 0 ==> ids[k] !in keys)
    && (forall j, k :: 0 <= j < k < |ids| && ids[k] != 0 ==> ids[k] != KeyOf(TopKey(keys), ids, j))
  }

  // The keys of the table after rows with these ids were inserted, None if an insert fails
  ghost function KeysAfter(keys: set<nat>, ids: seq<nat>): Option<set<nat>> {
    if ids == [] then Some(keys)
    else
      var before, id := KeysAfter(keys, ids[..|ids| - 1]), ids[|ids| - 1];
      if before.None? then None
      else if id == 0 then Some(before.value + {FreshId(before.value)})
      else if id in before.value then None
      else Some(before.value + {id})
  }

  lemma {:induction false} KeysAfterBoth(keys: set<nat>, a: seq<nat>, b: seq<nat>)
    ensures KeysAfter(keys, a + b)
         == if KeysAfter(keys, a).None? then None else KeysAfter(KeysAfter(keys, a).value, b)
  {
    if b == [] {
      assert a + b == a;
    } else {
      KeysAfterBoth(keys, a, b[..|b| - 1]);
      assert (a + b)[..|a + b| - 1] == a + b[..|b| - 1];
    }
  }

  lemma {:induction false} InsertIsKeysAfter(t: Table, c: Condition)
    ensures Insert(t, c).Ok? <==> KeysAfter(t.Keys, InsertOrder(c)).Some?
    ensures Insert(t, c).Ok? ==> Insert(t, c).value.0.Keys == KeysAfter(t.Keys, InsertOrder(c)).value
    decreases c
  {
    match c
    case Null =>
    case Compare(i, l, r, op) =>
      InsertIsKeysAfter(t, l);
      KeysAfterBoth(t.Keys, InsertOrder(l), InsertOrder(r));
      KeysAfterOne(t.Keys, InsertOrder(l) + InsertOrder(r), i);
      if Insert(t, l).Ok? {
        var u := Insert(t, l).value.0;
        InsertIsKeysAfter(u, r);
        assert KeysAfter(t.Keys, InsertOrder(l) + InsertOrder(r)) == KeysAfter(u.Keys, InsertOrder(r));
      }
    case _ => KeysAfterOne(t.Keys, [], c.id);
  }

  lemma KeysAfterOne(keys: set<nat>, ids: seq<nat>, id: nat)
    ensures var before := KeysAfter(keys, ids);
      KeysAfter(keys, ids + [id]) ==
        if before.None? || (id != 0 && id in before.value) then None
        else Some(before.value + {if id == 0 then FreshId(before.value) else id})
  {
    assert (ids + [id])[..|ids|] == ids;
  }

  // Which keys there are
  ghost predicate IsKeyAfter(keys: set<nat>, ids: seq<nat>, x: nat) {
    || x in keys
    || exists j :: 0 <= j < |ids| && x == KeyOf(TopKey(keys), ids, j)
  }

  lemma TopKeyAdd(keys: set<nat>, id: nat)
    ensures TopKey(keys + {id}) == if id > TopKey(keys) then id else TopKey(keys)
  {
    assert id in keys + {id};
    assert keys == {} ==> keys + {id} == {id};
  }

  lemma {:induction false} KeysAfterFit(keys: set<nat>, ids: seq<nat>)
    ensures KeysAfter(keys, ids).Some? <==> IdsFit(keys, ids)
    ensures KeysAfter(keys, ids).Some? ==>
      && TopKey(KeysAfter(keys, ids).value) == TopAfter(TopKey(keys), ids)
      && forall x :: x in KeysAfter(keys, ids).value <==> IsKeyAfter(keys, ids, x)
  {
    if ids == [] {
    } else {
      var n := |ids| - 1;
      var before, id := ids[..n], ids[n];
      KeysAfterFit(keys, before);
      if KeysAfter(keys, before).Some? {
        var s := KeysAfter(keys, before).value;
        FitOneMore(keys, ids, s);
        TopKeyAdd(s, if id == 0 then FreshId(s) else id);
      } else {
        FitPrefix(keys, ids, before);
      }
    }
  }

  lemma FitPrefix(keys: set<nat>, ids: seq<nat>, before: seq<nat>)
    requires ids != [] && before == ids[..|ids| - 1]
    ensures forall j :: 0 <= j < |before| ==> KeyOf(TopKey(keys), before, j) == KeyOf(TopKey(keys), ids, j)
    ensures IdsFit(keys, ids) ==> IdsFit(keys, before)
  {
    forall j | 0 <= j < |before|
      ensures KeyOf(TopKey(keys), before, j) == KeyOf(TopKey(keys), ids, j)
    {
      assert before[..j] == ids[..j];
    }
    assert forall j :: 0 <= j < |before| ==> before[j] == ids[j];
  }

  lemma FitOneMore(keys: set<nat>, ids: seq<nat>, s: set<nat>)
    requires ids != [] && IdsFit(keys, ids[..|ids| - 1])
    requires forall x :: x in s <==> IsKeyAfter(keys, ids[..|ids| - 1], x)
    requires TopKey(s) == TopAfter(TopKey(keys), ids[..|ids| - 1])
    ensures var id := ids[|ids| - 1];
      && (IdsFit(keys, ids) <==> id == 0 || id !in s)
      && forall x :: IsKeyAfter(keys, ids, x) <==> x in s || x == if id == 0 then TopKey(s) + 1 else id
  {
    var n, top := |ids| - 1, TopKey(keys);
    var before := ids[..n];
    FitPrefix(keys, ids, before);
    forall x
      ensures IsKeyAfter(keys, ids, x) <==> IsKeyAfter(keys, before, x) || x == KeyOf(top, ids, n)
    {
      if IsKeyAfter(keys, before, x) && x !in keys {
        var j :| 0 <= j < n && x == KeyOf(top, before, j);
        assert x == KeyOf(top, ids, j);
      }
    }
    FitLast(keys, ids, before);
  }

  lemma FitLast(keys: set<nat>, ids: seq<nat>, before: seq<nat>)
    requires ids != [] && before == ids[..|ids| - 1] && IdsFit(keys, before)
    requires forall j :: 0 <= j < |before| ==> KeyOf(TopKey(keys), before, j) == KeyOf(TopKey(keys), ids, j)
    ensures IdsFit(keys, ids) <==> ids[|before|] == 0 || !IsKeyAfter(keys, before, ids[|before|])
  {
  }

  /** Exactly when a tree with any mix of preset and missing ids is inserted. */
  lemma InsertExactly(t: Table, c: Condition)
    ensures Insert(t, c).Ok? <==> IdsFit(t.Keys, InsertOrder(c))
  {
    InsertIsKeysAfter(t, c);
    KeysAfterFit(t.Keys, InsertOrder(c));
  }

  /** It fails when the left child of the only rule is replaced by a new condition: the id handed out to the new
      child is the one the right child still has. */
  lemma EditedLeftChildCollides()
    ensures
      var before := Compare(0, Constant(0, true), Constant(0, true), And);
      var stored := Insert(map[], before).value;
      var edited := stored.1.(left := Constant(0, false));
      && Insert(map[], before).Ok?
      && edited.Distinct()
      && Insert(Remove(stored.0, edited), edited) == Err(UniqueConstraint)
  {
  }

  // ---------- what reading finds ----------

  /** A stored tree is read back as it is, ids included, exactly when no device condition is in it; otherwise
      the read throws. */
  lemma {:induction false} ReadStored(t: Table, c: Condition, fuel: nat)
    requires Stored(t, c) && !c.Null? && fuel >= c.Height()
    ensures Read(t, c.id, fuel) == if c.HasDevice() then Err(InvalidArgument) else Ok(c)
  {
    if !c.Compare? {
    } else {
      if !c.left.Null? {
        ReadStored(t, c.left, fuel - 1);
      }
      if !c.right.Null? {
        ReadStored(t, c.right, fuel - 1);
      }
    }
  }

  // Rows as InsertRow writes them: children by id and enums in range
  ghost predicate PlainRow(row: Row) {
    match row.kind
    case 0 => row.data.BoolData?
    case 1 =>
      && row.data.CompareData? && !row.data.leftRef.Embedded? && !row.data.rightRef.Embedded?
      && CompareOpFromInt(row.data.compare).Ok?
    case 2 =>
      && row.data.TimeData?
      && TimeOpFromInt(row.data.timeCompare).Ok? && TimeTypeFromInt(row.data.timeKind).Ok?
    case 3 => row.data.NoData?
    case _ => false
  }

  ghost predicate Plain(t: Table) {
    forall k :: k in t ==> PlainRow(t[k])
  }

  /** What is read is what is stored: a read that succeeds returns a tree whose rows the table holds. */
  lemma {:induction false} ReadIsStored(t: Table, id: nat, fuel: nat)
    requires Plain(t) && Read(t, id, fuel).Ok?
    ensures var c := Read(t, id, fuel).value;
      !c.Null? && c.id == id && Stored(t, c) && !c.HasDevice() && c.Height() <= fuel
    decreases fuel
  {
    var row := t[id];
    assert PlainRow(row);
    if row.kind == 1 {
      if row.data.leftRef.IdRef? {
        ReadIsStored(t, row.data.leftRef.refId, fuel - 1);
      }
      if row.data.rightRef.IdRef? {
        ReadIsStored(t, row.data.rightRef.refId, fuel - 1);
      }
    } else {
      ReadLeaf(t, id, fuel);
    }
  }

  lemma {:induction false} ReadLeaf(t: Table, id: nat, fuel: nat)
    requires id in t && t[id].kind != 1 && Read(t, id, fuel).Ok?
    ensures var c := Read(t, id, fuel).value;
      !c.Null? && !c.Compare? && !c.Device? && c.id == id && t[id] == RowOf(c)
  {
  }

  lemma {:induction false} InsertPlain(t: Table, c: Condition)
    requires Plain(t) && Insert(t, c).Ok?
    ensures Plain(Insert(t, c).value.0)
    decreases c
  {
    if !c.Compare? {
    } else {
      InsertPlain(t, c.left);
      InsertPlain(Insert(t, c.left).value.0, c.right);
    }
  }

  // ---------- termination of reading ----------

  ghost predicate Refers(row: Row, id: nat) {
    row.data.CompareData? && (row.data.leftRef == IdRef(id) || row.data.rightRef == IdRef(id))
  }

  // Every stored reference to an existing row goes to a row of smaller rank
  ghost predicate Ranked(t: Table, rank: map<nat, nat>) {
    && t.Keys <= rank.Keys
    && forall k, r :: k in t && r in t && Refers(t[k], r) ==> rank[r] < rank[k]
  }

  // No chain of stored references comes back to its start
  ghost predicate Acyclic(t: Table) {
    exists rank :: Ranked(t, rank)
  }

  lemma {:induction false} DeserializeTerminates(m: Message)
    ensures Deserialize(m) != Err(OutOfFuel)
    decreases m
  {
    if m.data.CompareData? {
      if m.data.leftRef.Embedded? {
        DeserializeTerminates(m.data.leftRef.msg);
      }
      if m.data.rightRef.Embedded? {
        DeserializeTerminates(m.data.rightRef.msg);
      }
    }
  }

  lemma {:induction false} RankBoundsRead(t: Table, rank: map<nat, nat>, id: nat, fuel: nat)
    requires Ranked(t, rank)
    requires fuel > if id in t then rank[id] + 1 else 0
    ensures Read(t, id, fuel) != Err(OutOfFuel)
    decreases fuel, 0
  {
    if id in t && t[id].data.CompareData? {
      var CompareData(l, r, _) := t[id].data;
      RankBoundsChild(t, rank, id, l, fuel - 1);
      RankBoundsChild(t, rank, id, r, fuel - 1);
    }
  }

  lemma {:induction false} RankBoundsChild(t: Table, rank: map<nat, nat>, id: nat, ref: Ref, fuel: nat)
    requires Ranked(t, rank) && id in t && fuel > rank[id]
    requires ref.IdRef? ==> Refers(t[id], ref.refId)
    ensures ReadChild(t, ref, fuel) != Err(OutOfFuel)
    decreases fuel, 1
  {
    match ref
    case NoRef =>
    case IdRef(r) => RankBoundsRead(t, rank, r, fuel);
    case Embedded(m) => DeserializeTerminates(m);
  }

  // More fuel does not change a read that has ended
  lemma {:induction false} ReadFuel(t: Table, id: nat, fuel: nat, more: nat)
    requires fuel <= more && Read(t, id, fuel) != Err(OutOfFuel)
    ensures Read(t, id, more) == Read(t, id, fuel)
    decreases fuel
  {
    if id in t && t[id].data.CompareData? && t[id].kind == 1 {
      var CompareData(l, r, cmp) := t[id].data;
      if CompareOpFromInt(cmp).Ok? {
        if l.IdRef? {
          ReadFuel(t, l.refId, fuel - 1, more - 1);
        }
        if ReadChild(t, l, fuel - 1).Ok? && r.IdRef? {
          ReadFuel(t, r.refId, fuel - 1, more - 1);
        }
      }
    }
  }

  ghost predicate ReadEnds(t: Table, id: nat) {
    exists fuel: nat :: Read(t, id, fuel) != Err(OutOfFuel)
  }

  /** GetRuleCondition as the source runs it, without a bound. */
  ghost function Load(t: Table, id: nat): Result<Condition> {
    if ReadEnds(t, id) then
      var fuel: nat :| Read(t, id, fuel) != Err(OutOfFuel);
      Read(t, id, fuel)
    else Err(OutOfFuel)
  }

  lemma LoadIsRead(t: Table, id: nat, fuel: nat)
    requires Read(t, id, fuel) != Err(OutOfFuel)
    ensures Load(t, id) == Read(t, id, fuel)
  {
    var f: nat :| Read(t, id, f) != Err(OutOfFuel) && Load(t, id) == Read(t, id, f);
    if f <= fuel {
      ReadFuel(t, id, f, fuel);
    } else {
      ReadFuel(t, id, fuel, f);
    }
  }

  lemma LoadStored(t: Table, c: Condition)
    requires Stored(t, c) && !c.Null?
    ensures Load(t, c.id) == if c.HasDevice() then Err(InvalidArgument) else Ok(c)
  {
    ReadStored(t, c, c.Height());
    LoadIsRead(t, c.id, c.Height());
  }

  /** Writing a tree without ids and reading it back by the id its root got: every node has a fresh id of its
      own, no earlier row changes, and the read returns the tree with those ids, or throws if a device condition
      is in it. */
  lemma InsertLoadRoundTrip(t: Table, c: Condition)
    requires !c.Null? && c.AllZero()
    ensures Insert(t, c).Ok?
    ensures var (u, d) := Insert(t, c).value;
      && Inserted(t, c, u, d)
      && Load(u, d.id) == if c.HasDevice() then Err(InvalidArgument) else Ok(d)
  {
    InsertUnassigned(t, c);
    InsertStores(t, c);
    var (u, d) := Insert(t, c).value;
    FillsIdsHasDevice(c, d);
    LoadStored(u, d);
  }

  lemma LoadIsStored(t: Table, id: nat)
    requires Plain(t) && Load(t, id).Ok?
    ensures var c := Load(t, id).value; !c.Null? && c.id == id && Stored(t, c) && !c.HasDevice()
  {
    var fuel: nat :| Read(t, id, fuel) != Err(OutOfFuel) && Load(t, id) == Read(t, id, fuel);
    ReadIsStored(t, id, fuel);
  }

  /** On an acyclic table every read ends. */
  lemma AcyclicLoads(t: Table, id: nat)
    requires Acyclic(t)
    ensures ReadEnds(t, id) && Load(t, id) != Err(OutOfFuel)
  {
    var rank :| Ranked(t, rank);
    var fuel := 2 + if id in t then rank[id] else 0;
    RankBoundsRead(t, rank, id, fuel);
    LoadIsRead(t, id, fuel);
  }

  // Height of the subtree of `c` whose root has id `k`
  ghost function HeightAt(c: Condition, k: nat): nat {
    match c
    case Null => 0
    case Compare(i, l, r, _) =>
      if i == k then c.Height() else if k in l.Ids() then HeightAt(l, k) else HeightAt(r, k)
    case _ => 1
  }

  lemma {:induction false} HeightAtRanks(t: Table, c: Condition, k: nat, ref: nat)
    requires Stored(t, c) && c.Distinct() && c.AllPreset()
    requires k in c.Ids() && k in t && Refers(t[k], ref)
    ensures ref in c.Ids() && HeightAt(c, ref) < HeightAt(c, k) <= c.Height()
  {
    if !c.Compare? {
    } else {
      if k == c.id {
        HeightAtBound(c.left, ref);
        HeightAtBound(c.right, ref);
      } else if k in c.left.Ids() {
        HeightAtRanks(t, c.left, k, ref);
        assert ref in c.left.PresetIds();
      } else {
        HeightAtRanks(t, c.right, k, ref);
        assert ref in c.right.PresetIds() && k in c.right.PresetIds();
      }
    }
  }

  lemma {:induction false} HeightAtBound(c: Condition, k: nat)
    ensures HeightAt(c, k) <= c.Height()
  {
    if !c.Compare? {
    } else {
      HeightAtBound(c.left, k);
      HeightAtBound(c.right, k);
    }
  }

  /** Inserting any tree, ids preset or not, leaves the stored references acyclic; so does removing rows. Rows
      that refer to ids not there yet are no exception. */
  lemma InsertAcyclic(t: Table, c: Condition)
    requires Acyclic(t) && Insert(t, c).Ok?
    ensures Acyclic(Insert(t, c).value.0)
  {
    InsertStores(t, c);
    var (u, d) := Insert(t, c).value;
    var rank :| Ranked(t, rank);
    var rank' := map k | k in u :: if k in d.Ids() then HeightAt(d, k) else rank[k] + d.Height() + 1;
    forall k, r | k in u && r in u && Refers(u[k], r)
      ensures rank'[r] < rank'[k]
    {
      if k in d.Ids() {
        HeightAtRanks(u, d, k, r);
      } else {
        HeightAtBound(d, r);
      }
    }
    assert Ranked(u, rank');
  }

  lemma SubtableAcyclic(t: Table, u: Table)
    requires Acyclic(t) && u.Keys <= t.Keys && AgreeOn(t, u, u.Keys)
    ensures Acyclic(u)
  {
    var rank :| Ranked(t, rank);
    assert Ranked(u, rank);
  }
}
