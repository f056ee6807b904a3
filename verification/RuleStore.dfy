/** Saving, loading and removing rules over the four tables
    (backend/database/DBRuleSerialize.cpp, backend/database/DBActionSerialize.cpp), as functions on the tables. */
module RuleStore {
  import opened Wrappers
  import opened Conditions
  import opened ConditionTable
  import opened RowKeys
  import opened Actions
  import opened Tables

  datatype Rule = Rule(id: nat, head: RuleHead, condition: Condition, effect: Action)

  // ---------- actions ----------

  ghost function AddActionOnly(db: Db, a: Action): (Db, nat) {
    var id := if a.id == 0 then FreshId(db.actions.Keys) else a.id;
    (db.(actions := db.actions[id := a.head]), id)
  }

  ghost function AddAction(db: Db, a: Action): (Db, nat) {
    var (db1, id) := AddActionOnly(db, a);
    var kept := if a.id != 0 then Without(db1.subActions, a.id) else db1.subActions;
    (db1.(subActions := Append(kept, id, a.subs)), id)
  }

  ghost function GetAction(db: Db, id: nat): Option<Action> {
    if id in db.actions then Some(Action(id, db.actions[id], SubsOf(db.subActions, id))) else None
  }

  // ---------- rules ----------

  // A foreign key column that is not null has to name a row
  ghost function AddRuleOnly(db: Db, r: Rule): Result<(Db, nat)>
    requires !r.condition.Null?
  {
    if r.condition.id !in db.conditions || r.effect.id !in db.actions then Err(ForeignKey)
    else
      var id := if r.id == 0 then FreshId(db.rules.Keys) else r.id;
      var row := RuleRow(r.head, Some(r.condition.id), Some(r.effect.id));
      Ok((db.(rules := db.rules[id := row]), id))
  }

  // The condition rows of the previous version are deleted and the effect is saved
  ghost function BeforeInsert(db: Db, r: Rule): (Db, nat)
    requires !r.condition.Null?
  {
    AddAction(if r.condition.id != 0 then DeleteConditions(db, r.condition.PresetIds()) else db, r.effect)
  }

  /** DBRuleSerialize::AddRule, which UpdateRule forwards to. The result holds the tables and the rule with the
      ids it was given; after an error the transaction is rolled back. */
  ghost function AddRule(db: Db, r: Rule): Result<(Db, Rule)> {
    if r.condition.Null? then Err(InvalidArgument)
    else
      var (db2, actionId) := BeforeInsert(db, r);
      var (conditions, condition) :- Insert(db2.conditions, r.condition);
      var saved := r.(condition := condition, effect := r.effect.(id := actionId));
      var (db3, ruleId) :- AddRuleOnly(db2.(conditions := conditions), saved);
      Ok((db3, saved.(id := ruleId)))
  }

  // The rule of one row; a null column reads as 0
  ghost function LoadRule(db: Db, id: nat): Result<Rule>
    requires id in db.rules
  {
    var row := db.rules[id];
    var condition :- Load(db.conditions, row.conditionId.GetOr(0));
    Ok(Rule(id, row.head, condition, GetAction(db, row.actionId.GetOr(0)).GetOr(DEFAULT_ACTION)))
  }

  ghost predicate AreRules(db: Db, ids: seq<nat>) {
    forall i :: 0 <= i < |ids| ==> ids[i] in db.rules
  }

  // GetRulesFromQuery: the rules of the selected rows in their order, or the first exception
  ghost function GetRules(db: Db, ids: seq<nat>): Result<seq<Rule>>
    requires AreRules(db, ids)
  {
    if ids == [] then Ok([])
    else
      var before :- GetRules(db, ids[..|ids| - 1]);
      var last :- LoadRule(db, ids[|ids| - 1]);
      Ok(before + [last])
  }

  lemma GetRulesNext(db: Db, ids: seq<nat>, before: seq<nat>, last: nat)
    requires ids == before + [last] && AreRules(db, before) && last in db.rules
    ensures AreRules(db, ids)
    ensures GetRules(db, ids)
         == if GetRules(db, before).Err? then GetRules(db, before)
            else if LoadRule(db, last).Err? then Err(LoadRule(db, last).error)
            else Ok(GetRules(db, before).value + [LoadRule(db, last).value])
  {
    assert ids[..|ids| - 1] == before;
  }

  /** A query for several rules succeeds if and only if each of them can be loaded, and then it lists them in order;
      otherwise it throws what loading the first of the others throws. */
  lemma {:induction false} GetRulesExactly(db: Db, ids: seq<nat>)
    requires AreRules(db, ids)
    ensures GetRules(db, ids).Ok? <==> forall i :: 0 <= i < |ids| ==> LoadRule(db, ids[i]).Ok?
    ensures GetRules(db, ids).Ok? ==>
      && |GetRules(db, ids).value| == |ids|
      && forall i :: 0 <= i < |ids| ==> LoadRule(db, ids[i]) == Ok(GetRules(db, ids).value[i])
    ensures GetRules(db, ids).Err? ==>
      exists i :: 0 <= i < |ids| && LoadRule(db, ids[i]).Err? && LoadRule(db, ids[i]).error == GetRules(db, ids).error
                  && forall j :: 0 <= j < i ==> LoadRule(db, ids[j]).Ok?
    decreases ids
  {
    if ids == [] {
    } else {
      GetRulesExactly(db, ids[..|ids| - 1]);
      GetRulesNext(db, ids, ids[..|ids| - 1], ids[|ids| - 1]);
    }
  }

  lemma OneRule(db: Db, id: nat)
    requires id in db.rules
    ensures AreRules(db, [id])
    ensures GetRules(db, [id])
         == if LoadRule(db, id).Err? then Err(LoadRule(db, id).error) else Ok([LoadRule(db, id).value])
  {
    var none: seq<nat> := [];
    GetRulesNext(db, [id], none, id);
    assert GetRules(db, none) == Ok([]);
    if LoadRule(db, id).Ok? {
      assert [] + [LoadRule(db, id).value] == [LoadRule(db, id).value];
    }
  }

  lemma ListedAreRules(db: Db, ids: seq<nat>)
    requires Lists(ids, db.rules.Keys)
    ensures AreRules(db, ids)
  {
    forall i | 0 <= i < |ids|
      ensures ids[i] in db.rules
    {
      assert ids[i] in ids;
    }
  }

  ghost function GetRule(db: Db, id: nat): Result<Option<Rule>> {
    if id !in db.rules then Ok(None)
    else
      var rule :- LoadRule(db, id);
      Ok(Some(rule))
  }

  ghost function RemoveLoadedRule(db: Db, r: Rule): Db {
    var db1 := db.(rules := db.rules - {r.id});
    DeleteAction(DeleteConditions(db1, r.condition.PresetIds()), r.effect.id)
  }

  ghost function RemoveRule(db: Db, id: nat): Result<Db> {
    var rule :- GetRule(db, id);
    Ok(if rule.Some? then RemoveLoadedRule(db, rule.value) else db)
  }

  // ---------- consistency over every run ----------

  ghost predicate Consistent(db: Db) {
    && ForeignKeysResolve(db)
    && Plain(db.conditions)
    && Acyclic(db.conditions)
    && KeysAscend(db.subActions)
  }

  lemma DeleteConditionsConsistent(db: Db, ids: set<nat>)
    requires Consistent(db)
    ensures Consistent(DeleteConditions(db, ids))
  {
    SubtableAcyclic(db.conditions, db.conditions - ids);
  }

  lemma DeleteActionConsistent(db: Db, id: nat)
    requires Consistent(db)
    ensures Consistent(DeleteAction(db, id))
  {
    WithoutAscends(db.subActions, id);
    WithoutMembers(db.subActions, id);
  }

  lemma AddActionConsistent(db: Db, a: Action)
    requires Consistent(db)
    ensures Consistent(AddAction(db, a).0) && AddAction(db, a).1 in AddAction(db, a).0.actions
    ensures Consistent(AddActionOnly(db, a).0)
  {
    var (db1, id) := AddActionOnly(db, a);
    var kept := if a.id != 0 then Without(db1.subActions, a.id) else db1.subActions;
    WithoutAscends(db.subActions, id);
    WithoutMembers(db.subActions, id);
    SubsConsistent(db1, kept, id, a.subs);
  }

  lemma SubsConsistent(db: Db, kept: seq<SubRow>, id: nat, subs: seq<SubAction>)
    requires Consistent(db) && KeysAscend(kept) && Owned(kept, db.actions.Keys) && id in db.actions
    ensures Consistent(db.(subActions := Append(kept, id, subs)))
  {
    AppendAscends(kept, id, subs);
    AppendEffect(kept, id, subs, db.actions.Keys);
  }

  lemma InsertConsistent(db: Db, c: Condition)
    requires Consistent(db) && Insert(db.conditions, c).Ok?
    ensures Consistent(db.(conditions := Insert(db.conditions, c).value.0))
  {
    InsertStores(db.conditions, c);
    InsertPlain(db.conditions, c);
    InsertAcyclic(db.conditions, c);
  }

  /** Saving a rule, whatever ids it brings, keeps the tables consistent, and a foreign key never stops it. */
  lemma AddRuleConsistent(db: Db, r: Rule)
    requires Consistent(db)
    ensures AddRule(db, r).Ok? ==> Consistent(AddRule(db, r).value.0)
    ensures AddRule(db, r) != Err(ForeignKey)
  {
    if !r.condition.Null? {
      BeforeInsertConsistent(db, r);
      var db2 := BeforeInsert(db, r).0;
      InsertError(db2.conditions, r.condition);
      if Insert(db2.conditions, r.condition).Ok? {
        InsertConsistent(db2, r.condition);
        InsertStores(db2.conditions, r.condition);
        var (conditions, condition) := Insert(db2.conditions, r.condition).value;
        AddRuleOnlyConsistent(db2.(conditions := conditions),
                              r.(condition := condition, effect := r.effect.(id := BeforeInsert(db, r).1)));
      }
    }
  }

  lemma BeforeInsertConsistent(db: Db, r: Rule)
    requires Consistent(db) && !r.condition.Null?
    ensures var (db2, actionId) := BeforeInsert(db, r); Consistent(db2) && actionId in db2.actions
  {
    DeleteConditionsConsistent(db, r.condition.PresetIds());
    AddActionConsistent(if r.condition.id != 0 then DeleteConditions(db, r.condition.PresetIds()) else db, r.effect);
  }

  lemma AddRuleOnlyConsistent(db: Db, r: Rule)
    requires Consistent(db) && !r.condition.Null?
    ensures AddRuleOnly(db, r).Ok? <==> r.condition.id in db.conditions && r.effect.id in db.actions
    ensures AddRuleOnly(db, r).Ok? ==> Consistent(AddRuleOnly(db, r).value.0)
  {
  }

  lemma {:induction false} InsertError(t: Table, c: Condition)
    ensures Insert(t, c).Err? ==> Insert(t, c).error == UniqueConstraint
    decreases c
  {
    if !c.Compare? {
    } else {
      InsertError(t, c.left);
      if Insert(t, c.left).Ok? {
        InsertError(Insert(t, c.left).value.0, c.right);
      }
    }
  }

  // The requests clients can send about rules and actions
  datatype Op =
    | SaveRule(rule: Rule)           // AddRule, UpdateRule
    | SaveRuleHeader(rule: Rule)     // UpdateRuleHeader
    | DropRule(id: nat)
    | SaveAction(action: Action)     // AddAction, UpdateAction
    | SaveActionHeader(action: Action)
    | DropAction(id: nat)

  // A request that throws changes nothing
  ghost function Step(db: Db, op: Op): Db {
    match op
    case SaveRule(r) => if AddRule(db, r).Ok? then AddRule(db, r).value.0 else db
    case SaveRuleHeader(r) =>
      if !r.condition.Null? && AddRuleOnly(db, r).Ok? then AddRuleOnly(db, r).value.0 else db
    case DropRule(id) => if RemoveRule(db, id).Ok? then RemoveRule(db, id).value else db
    case SaveAction(a) => AddAction(db, a).0
    case SaveActionHeader(a) => AddActionOnly(db, a).0
    case DropAction(id) => DeleteAction(db, id)
  }

  ghost function Run(db: Db, ops: seq<Op>): Db
    decreases ops
  {
    if ops == [] then db else Run(Step(db, ops[0]), ops[1..])
  }

  lemma StepConsistent(db: Db, op: Op)
    requires Consistent(db)
    ensures Consistent(Step(db, op))
  {
    match op
    case SaveRule(r) => AddRuleConsistent(db, r);
    case SaveRuleHeader(r) =>
    case DropRule(id) =>
      if id in db.rules && GetRule(db, id).Ok? {
        var r := GetRule(db, id).value.value;
        var db1 := db.(rules := db.rules - {r.id});
        DeleteConditionsConsistent(db1, r.condition.PresetIds());
        DeleteActionConsistent(DeleteConditions(db1, r.condition.PresetIds()), r.effect.id);
      }
    case SaveAction(a) => AddActionConsistent(db, a);
    case SaveActionHeader(a) => AddActionConsistent(db, a);
    case DropAction(id) => DeleteActionConsistent(db, id);
  }

  lemma {:induction false} RunConsistent(db: Db, ops: seq<Op>)
    requires Consistent(db)
    ensures Consistent(Run(db, ops))
    decreases ops
  {
    if ops == [] {
    } else {
      StepConsistent(db, ops[0]);
      RunConsistent(Step(db, ops[0]), ops[1..]);
    }
  }

  /** Whatever requests are made, starting from empty tables, in any order and with any ids: all foreign keys
      resolve and loading any rule comes to an end, so no stored condition refers to itself. */
  lemma EveryRunLoads(ops: seq<Op>, id: nat)
    ensures Consistent(Run(EMPTY_DB, ops))
    ensures GetRule(Run(EMPTY_DB, ops), id) != Err(OutOfFuel)
  {
    assert Ranked(map[], map[]);
    RunConsistent(EMPTY_DB, ops);
    var db := Run(EMPTY_DB, ops);
    if id in db.rules {
      AcyclicLoads(db.conditions, db.rules[id].conditionId.GetOr(0));
    }
  }

  // ---------- what one request changes ----------

  // The row written for an entity that says `given`: its own, or the one after the last
  ghost predicate WritesRow(given: nat, keys: set<nat>, id: nat) {
    && (given != 0 ==> id == given)
    && (given == 0 ==> id > 0 && id !in keys && (id == 1 || id - 1 in keys) && forall k :: k in keys ==> k < id)
  }

  /** Saving the header of an action writes its row and nothing else: its sub actions stay. */
  lemma ActionHeaderOnly(db: Db, a: Action) returns (id: nat)
    ensures WritesRow(a.id, db.actions.Keys, id)
    ensures Step(db, SaveActionHeader(a)) == db.(actions := db.actions[id := a.head])
  {
    id := AddActionOnly(db, a).1;
  }

  /** Saving the header of a rule writes its row if both keys in it resolve, and changes nothing else: its condition
      and its action are not saved. */
  lemma RuleHeaderOnly(db: Db, r: Rule) returns (id: nat)
    ensures WritesRow(r.id, db.rules.Keys, id)
    ensures Step(db, SaveRuleHeader(r))
         == if !r.condition.Null? && r.condition.id in db.conditions && r.effect.id in db.actions
            then db.(rules := db.rules[id := RuleRow(r.head, Some(r.condition.id), Some(r.effect.id))]) else db
  {
    id := if r.id == 0 then FreshId(db.rules.Keys) else r.id;
  }

  /** Saving an action makes it the action that its key names, replaces the sub actions it had, and leaves every other
      action, the rules and the conditions as they were. */
  lemma ActionSaved(db: Db, a: Action) returns (id: nat)
    requires Consistent(db)
    ensures WritesRow(a.id, db.actions.Keys, id)
    ensures var after := Step(db, SaveAction(a));
      && GetAction(after, id) == Some(a.(id := id))
      && (forall other :: other != id ==> GetAction(after, other) == GetAction(db, other))
      && after.actions.Keys == db.actions.Keys + {id}
      && after.rules == db.rules && after.conditions == db.conditions
      && Without(after.subActions, id) == Without(db.subActions, id)
  {
    id := AddActionOnly(db, a).1;
    var kept := if a.id != 0 then Without(db.subActions, a.id) else db.subActions;
    SavedSubs(db, a.id, id, kept, a.subs);
    SavedHeads(db, AddAction(db, a).0, id, a);
  }

  lemma SavedHeads(db: Db, after: Db, id: nat, a: Action)
    requires after.actions == db.actions[id := a.head]
    requires forall o :: SubsOf(after.subActions, o) == if o == id then a.subs else SubsOf(db.subActions, o)
    ensures GetAction(after, id) == Some(a.(id := id))
    ensures forall other :: other != id ==> GetAction(after, other) == GetAction(db, other)
    ensures after.actions.Keys == db.actions.Keys + {id}
  {
  }

  lemma SavedSubs(db: Db, given: nat, id: nat, kept: seq<SubRow>, subs: seq<SubAction>)
    requires Consistent(db) && WritesRow(given, db.actions.Keys, id)
    requires kept == if given != 0 then Without(db.subActions, given) else db.subActions
    ensures Without(Append(kept, id, subs), id) == Without(db.subActions, id)
    ensures forall o :: SubsOf(Append(kept, id, subs), o) == if o == id then subs else SubsOf(db.subActions, o)
  {
    KeptOwned(db, given, kept, db.actions.Keys + {id});
    AppendEffect(kept, id, subs, db.actions.Keys + {id});
    KeptSubs(db, given, id, kept, id);
    forall o
      ensures SubsOf(Append(kept, id, subs), o) == if o == id then subs else SubsOf(db.subActions, o)
    {
      KeptSubs(db, given, id, kept, o);
    }
  }

  lemma KeptOwned(db: Db, given: nat, kept: seq<SubRow>, owners: set<nat>)
    requires Consistent(db) && db.actions.Keys <= owners
    requires kept == if given != 0 then Without(db.subActions, given) else db.subActions
    ensures Owned(kept, owners)
  {
    WithoutMembers(db.subActions, given);
  }

  lemma KeptSubs(db: Db, given: nat, id: nat, kept: seq<SubRow>, other: nat)
    requires Consistent(db) && WritesRow(given, db.actions.Keys, id)
    requires kept == if given != 0 then Without(db.subActions, given) else db.subActions
    ensures SubsOf(kept, other) == if other == id then [] else SubsOf(db.subActions, other)
    ensures Without(kept, id) == Without(db.subActions, id)
  {
    WithoutOthers(db.subActions, id, other);
    if given == 0 {
      WithoutNone(db.subActions, db.actions.Keys, id);
    } else {
      WithoutMembers(db.subActions, id);
      WithoutTwice(db.subActions, id);
    }
  }

  lemma WithoutTwice(subs: seq<SubRow>, owner: nat)
    ensures Without(Without(subs, owner), owner) == Without(subs, owner)
  {
    WithoutMembers(subs, owner);
    var rest := Without(subs, owner);
    WithoutNone(rest, set row | row in rest :: row.owner, owner);
  }

  /** Deleting an action takes the action and its sub actions, empties the columns that named it, and leaves everything
      else. */
  lemma ActionDropped(db: Db, id: nat)
    requires Consistent(db)
    ensures var after := Step(db, DropAction(id));
      && (forall k :: GetAction(after, k) == if k == id then None else GetAction(db, k))
      && after.subActions == Without(db.subActions, id) && after.conditions == db.conditions
      && after.rules.Keys == db.rules.Keys
      && forall k :: k in db.rules ==>
           after.rules[k] == if db.rules[k].actionId == Some(id) then db.rules[k].(actionId := None) else db.rules[k]
  {
    forall k
      ensures SubsOf(Without(db.subActions, id), k) == if k == id then [] else SubsOf(db.subActions, k)
    {
      WithoutOthers(db.subActions, id, k);
    }
    if id !in db.actions {
      WithoutNone(db.subActions, db.actions.Keys, id);
    }
  }
}
