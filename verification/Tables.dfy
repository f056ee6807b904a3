/** The four tables behind rules, with the effects SQLite gives their foreign keys
    (backend/database/RulesTable.h, backend/database/ActionsTable.h). */
module Tables {
  import opened Wrappers
  import opened Conditions
  import opened ConditionTable
  import opened Actions

  datatype RuleHead = RuleHead(name: string, icon: string, color: nat, enabled: bool)

  datatype RuleRow = RuleRow(head: RuleHead, conditionId: Option<nat>, actionId: Option<nat>)

  datatype SubRow = SubRow(subId: nat, owner: nat, sub: SubAction)

  /** sub_actions is kept in the order of its keys, the order a scan of the table returns. */
  datatype Db = Db(
    rules: map<nat, RuleRow>,
    conditions: Table,
    actions: map<nat, ActionHead>,
    subActions: seq<SubRow>)

  const EMPTY_DB := Db(map[], map[], map[], [])

  // ---------- deletes ----------

  // ON DELETE SET NULL of condition_id
  function ForgetCondition(row: RuleRow, ids: set<nat>): RuleRow {
    if row.conditionId.Some? && row.conditionId.value in ids then row.(conditionId := None) else row
  }

  function ForgetConditions(rules: map<nat, RuleRow>, ids: set<nat>): map<nat, RuleRow> {
    map k | k in rules :: ForgetCondition(rules[k], ids)
  }

  function DeleteConditions(db: Db, ids: set<nat>): Db {
    db.(conditions := db.conditions - ids, rules := ForgetConditions(db.rules, ids * db.conditions.Keys))
  }

  // ON DELETE SET NULL of action_id
  function ForgetAction(row: RuleRow, id: nat): RuleRow {
    if row.actionId == Some(id) then row.(actionId := None) else row
  }

  function ForgetActions(rules: map<nat, RuleRow>, id: nat): map<nat, RuleRow> {
    map k | k in rules :: ForgetAction(rules[k], id)
  }

  // ON DELETE CASCADE of sub_actions
  function DeleteAction(db: Db, id: nat): Db {
    if id !in db.actions then db
    else
      db.(actions := db.actions - {id},
          subActions := Without(db.subActions, id),
          rules := ForgetActions(db.rules, id))
  }

  // ---------- sub_actions ----------

  function Without(subs: seq<SubRow>, owner: nat): seq<SubRow> {
    if subs == [] then []
    else if subs[0].owner == owner then Without(subs[1..], owner)
    else [subs[0]] + Without(subs[1..], owner)
  }

  // The sub actions of one action, in the order a select returns them
  function SubsOf(subs: seq<SubRow>, owner: nat): seq<SubAction> {
    if subs == [] then []
    else if subs[0].owner == owner then [subs[0].sub] + SubsOf(subs[1..], owner)
    else SubsOf(subs[1..], owner)
  }

  function NextSubId(subs: seq<SubRow>): nat {
    if subs == [] then 1 else subs[|subs| - 1].subId + 1
  }

  function Append(subs: seq<SubRow>, owner: nat, list: seq<SubAction>): seq<SubRow>
    decreases list
  {
    if list == [] then subs
    else Append(subs + [SubRow(NextSubId(subs), owner, list[0])], owner, list[1..])
  }

  ghost predicate Owned(subs: seq<SubRow>, owners: set<nat>) {
    forall i :: 0 <= i < |subs| ==> subs[i].owner in owners
  }

  ghost predicate KeysAscend(subs: seq<SubRow>) {
    forall i, j :: 0 <= i < j < |subs| ==> subs[i].subId < subs[j].subId
  }

  lemma {:induction false} SubsOfSplit(a: seq<SubRow>, b: seq<SubRow>, owner: nat)
    ensures SubsOf(a + b, owner) == SubsOf(a, owner) + SubsOf(b, owner)
  {
    if a == [] {
      assert a + b == b;
    } else {
      SubsOfSplit(a[1..], b, owner);
      assert (a + b)[1..] == a[1..] + b && (a + b)[0] == a[0];
      if a[0].owner == owner {
        assert SubsOf(a + b, owner) == [a[0].sub] + (SubsOf(a[1..], owner) + SubsOf(b, owner));
      }
    }
  }

  lemma {:induction false} WithoutSplit(a: seq<SubRow>, b: seq<SubRow>, owner: nat)
    ensures Without(a + b, owner) == Without(a, owner) + Without(b, owner)
  {
    if a == [] {
      assert a + b == b;
    } else {
      WithoutSplit(a[1..], b, owner);
      assert (a + b)[1..] == a[1..] + b && (a + b)[0] == a[0];
      if a[0].owner != owner {
        assert Without(a + b, owner) == [a[0]] + (Without(a[1..], owner) + Without(b, owner));
      }
    }
  }

  lemma {:induction false} WithoutOthers(subs: seq<SubRow>, owner: nat, other: nat)
    ensures SubsOf(Without(subs, owner), other) == if other == owner then [] else SubsOf(subs, other)
  {
    if subs == [] {
    } else {
      WithoutOthers(subs[1..], owner, other);
      if subs[0].owner != owner {
        assert ([subs[0]] + Without(subs[1..], owner))[1..] == Without(subs[1..], owner);
      }
    }
  }

  lemma {:induction false} WithoutNone(subs: seq<SubRow>, owners: set<nat>, owner: nat)
    requires Owned(subs, owners) && owner !in owners
    ensures Without(subs, owner) == subs
  {
    if subs == [] {
    } else {
      WithoutNone(subs[1..], owners, owner);
    }
  }

  lemma {:induction false} WithoutMembers(subs: seq<SubRow>, owner: nat)
    ensures forall i :: 0 <= i < |Without(subs, owner)| ==>
      Without(subs, owner)[i].owner != owner && Without(subs, owner)[i] in subs
  {
    if subs == [] {
    } else {
      WithoutMembers(subs[1..], owner);
    }
  }

  lemma {:induction false} WithoutAscends(subs: seq<SubRow>, owner: nat)
    requires KeysAscend(subs)
    ensures KeysAscend(Without(subs, owner))
  {
    if subs == [] {
    } else {
      WithoutAscends(subs[1..], owner);
      WithoutMembers(subs[1..], owner);
    }
  }

  lemma {:induction false} AppendAscends(subs: seq<SubRow>, owner: nat, list: seq<SubAction>)
    requires KeysAscend(subs)
    ensures KeysAscend(Append(subs, owner, list))
    decreases list
  {
    if list == [] {
    } else {
      AppendAscends(subs + [SubRow(NextSubId(subs), owner, list[0])], owner, list[1..]);
    }
  }

  /** Rows appended for `owner` are exactly `list` in order, come after the rows there were, and are all that a
      delete by owner then takes away. */
  lemma {:induction false} AppendEffect(subs: seq<SubRow>, owner: nat, list: seq<SubAction>, owners: set<nat>)
    requires Owned(subs, owners) && owner in owners
    ensures var u := Append(subs, owner, list);
      && Owned(u, owners)
      && Without(u, owner) == Without(subs, owner)
      && forall o :: SubsOf(u, o) == SubsOf(subs, o) + if o == owner then list else []
    decreases list
  {
    if list == [] {
    } else {
      var row := SubRow(NextSubId(subs), owner, list[0]);
      AppendEffect(subs + [row], owner, list[1..], owners);
      WithoutSplit(subs, [row], owner);
      forall o
        ensures SubsOf(Append(subs, owner, list), o) == SubsOf(subs, o) + if o == owner then list else []
      {
        SubsOfSplit(subs, [row], o);
      }
    }
  }

  // ---------- consistency ----------

  /** Every foreign key is null or names a row, and 0 is no key. */
  ghost predicate ForeignKeysResolve(db: Db) {
    && 0 !in db.rules && 0 !in db.conditions && 0 !in db.actions
    && (forall k :: k in db.rules ==> RowResolves(db, db.rules[k]))
    && Owned(db.subActions, db.actions.Keys)
  }

  ghost predicate RowResolves(db: Db, row: RuleRow) {
    && (row.conditionId.Some? ==> row.conditionId.value in db.conditions)
    && (row.actionId.Some? ==> row.actionId.value in db.actions)
  }
}
