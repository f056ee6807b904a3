/** DBRuleConditionSerialize, DBActionSerialize and DBRuleSerialize as they run: statements on a shared database,
    recursion over condition objects that get their ids on the way. Every method is proved against the functions
    of modules ConditionTable, Tables and RuleStore. */
module Serializers {
  import opened Wrappers
  import opened Conditions
  import opened ConditionCodec
  import opened ConditionTable
  import opened RowKeys
  import opened ConditionNodes
  import opened Actions
  import opened Tables
  import opened RuleStore

  class Database {
    var rules: map<nat, RuleRow>
    var conditions: Table
    var actions: map<nat, ActionHead>
    var subActions: seq<SubRow>

    constructor ()
      ensures Content() == EMPTY_DB
    {
      rules, conditions, actions, subActions := map[], map[], map[], [];
    }

    function Content(): Db
      reads this
    {
      Db(rules, conditions, actions, subActions)
    }

    method InsertCondition(id: nat, row: Row) returns (r: Result<nat>)
      modifies this`conditions
      ensures r == if id == 0 then Ok(FreshId(old(conditions).Keys))
                   else if id in old(conditions) then Err(UniqueConstraint) else Ok(id)
      ensures conditions == if r.Ok? then old(conditions)[r.value := row] else old(conditions)
    {
      if id == 0 {
        var key := FreshKey(conditions.Keys);
        conditions := conditions[key := row];
        return Ok(key);
      } else if id in conditions {
        return Err(UniqueConstraint);
      } else {
        conditions := conditions[id := row];
        return Ok(id);
      }
    }

    // DELETE of one condition row; rules that point to it lose their condition
    method DeleteCondition(id: nat)
      modifies this`conditions, this`rules
      ensures Content() == DeleteConditions(old(Content()), {id})
    {
      var gone := {id} * conditions.Keys;
      rules := ForgetConditions(rules, gone);
      conditions := conditions - {id};
    }

    method WriteAction(id: nat, head: ActionHead) returns (key: nat)
      modifies this`actions
      ensures key == if id == 0 then FreshId(old(actions).Keys) else id
      ensures actions == old(actions)[key := head]
    {
      key := id;
      if id == 0 {
        key := FreshKey(actions.Keys);
      }
      actions := actions[key := head];
    }

    // DELETE of one action: its sub actions go with it, rules that point to it lose their effect
    method DeleteActionRow(id: nat)
      modifies this`actions, this`subActions, this`rules
      ensures Content() == DeleteAction(old(Content()), id)
    {
      if id in actions {
        actions := actions - {id};
        subActions := Without(subActions, id);
        rules := ForgetActions(rules, id);
      }
    }

    // INSERT or UPDATE of one rule row; both columns are foreign keys
    method WriteRule(id: nat, head: RuleHead, conditionId: nat, actionId: nat) returns (r: Result<nat>)
      modifies this`rules
      ensures r == if conditionId !in conditions || actionId !in actions then Err(ForeignKey)
                   else Ok(if id == 0 then FreshId(old(rules).Keys) else id)
      ensures rules == if r.Ok? then old(rules)[r.value := RuleRow(head, Some(conditionId), Some(actionId))]
                       else old(rules)
    {
      if conditionId !in conditions || actionId !in actions {
        return Err(ForeignKey);
      }
      var key := id;
      if id == 0 {
        key := FreshKey(rules.Keys);
      }
      rules := rules[key := RuleRow(head, Some(conditionId), Some(actionId))];
      return Ok(key);
    }

    method DeleteRule(id: nat)
      modifies this`rules
      ensures rules == old(rules) - {id}
    {
      rules := rules - {id};
    }

    // ROLLBACK to the content a transaction started from
    method Rollback(before: Db)
      modifies this
      ensures Content() == before
    {
      rules, conditions, actions, subActions := before.rules, before.conditions, before.actions, before.subActions;
    }

    method RemoveSubActions(owner: nat)
      modifies this`subActions
      ensures subActions == Without(old(subActions), owner)
    {
      subActions := Without(subActions, owner);
    }

    method InsertSubAction(owner: nat, sub: SubAction)
      modifies this`subActions
      ensures subActions == old(subActions) + [SubRow(NextSubId(old(subActions)), owner, sub)]
    {
      subActions := subActions + [SubRow(NextSubId(subActions), owner, sub)];
    }
  }

  // ---------- conditions ----------

  // Serialize(false) of an object, as the row it is stored in
  function NodeRow(n: ConditionNode): (row: Row)
    requires n.Valid()
    reads n.Repr
    ensures row == RowOf(n.Tree())
  {
    if n.own.Compare? then
      Row(1, CompareData(
               if n.left == null then NoRef else IdRef(n.left.id),
               if n.right == null then NoRef else IdRef(n.right.id),
               CompareOpToInt(n.own.op)))
    else Row(n.own.Type(), Serialize(n.own, false).data)
  }

  class ConditionSerialize {
    const db: Database

    constructor (db: Database)
      ensures this.db == db
    {
      this.db := db;
    }

    /** The recursive lambda of InsertRuleCondition. */
    method InsertRec(c: ConditionNode) returns (r: Result<()>)
      requires c.Valid()
      modifies db`conditions, c.Repr
      ensures r.Ok? <==> Insert(old(db.conditions), old(c.Tree())).Ok?
      ensures r.Ok? ==> Ok((db.conditions, c.Tree())) == Insert(old(db.conditions), old(c.Tree()))
      ensures r.Err? ==> Err(r.error) == Insert(old(db.conditions), old(c.Tree()))
      decreases c.Repr
    {
      if c.left != null {
        var _ :- InsertRec(c.left);
      }
      if c.right != null {
        var _ :- InsertRec(c.right);
      }
      var key :- db.InsertCondition(c.id, NodeRow(c));
      c.SetId(key);
      return Ok(());
    }

    /** InsertRuleCondition in a transaction of its own: an error leaves the table as it was. */
    method InsertRuleCondition(c: ConditionNode) returns (r: Result<()>)
      requires c.Valid()
      modifies db`conditions, c.Repr
      ensures r.Ok? <==> Insert(old(db.conditions), old(c.Tree())).Ok?
      ensures r.Ok? ==> Ok((db.conditions, c.Tree())) == Insert(old(db.conditions), old(c.Tree()))
      ensures r.Err? ==> db.conditions == old(db.conditions)
    {
      var before := db.conditions;
      r := InsertRec(c);
      if r.Err? {
        db.conditions := before;
      }
    }

    /** The recursive lambda of RemoveRuleCondition: the node first, then right before left. */
    method RemoveRuleCondition(c: ConditionNode)
      requires c.Valid()
      modifies db`conditions, db`rules
      ensures db.Content() == DeleteConditions(old(db.Content()), c.Tree().PresetIds())
      decreases c.Repr
    {
      ghost var start := db.Content();
      ghost var done := {};
      DeleteNothing(start);
      if c.id != 0 {
        db.DeleteCondition(c.id);
        done := {c.id};
      }
      if c.right != null {
        RemoveRuleCondition(c.right);
        DeleteTwice(start, done, c.right.Tree().PresetIds());
        done := done + c.right.Tree().PresetIds();
      }
      if c.left != null {
        RemoveRuleCondition(c.left);
        DeleteTwice(start, done, c.left.Tree().PresetIds());
        done := done + c.left.Tree().PresetIds();
      }
      TreeIds(c);
      assert done == c.Tree().PresetIds();
    }

    /** GetRuleCondition: new objects for the rows that are reached from `id`. `fuel` is a bound under which the
        recursion ends. */
    method GetRuleCondition(id: nat, ghost fuel: nat) returns (r: Result<ConditionNode>)
      requires Read(db.conditions, id, fuel) != Err(OutOfFuel)
      ensures r.Ok? <==> Read(db.conditions, id, fuel).Ok?
      ensures r.Ok? ==>
        r.value.Valid() && fresh(r.value.Repr) && r.value.Tree() == Read(db.conditions, id, fuel).value
      ensures r.Err? ==> Err(r.error) == Read(db.conditions, id, fuel)
      decreases fuel, 0
    {
      if id !in db.conditions {
        return Err(OutOfRange);
      }
      var Row(kind, data) := db.conditions[id];
      if kind == 0 {
        if !data.BoolData? {
          return Err(InvalidArgument);
        }
        var n := new ConditionNode(id, Constant(0, data.value), null, null);
        return Ok(n);
      } else if kind == 1 {
        if !data.CompareData? {
          return Err(InvalidArgument);
        }
        var op :- CompareOpFromInt(data.compare);
        var left :- GetChild(data.leftRef, fuel - 1);
        var right :- GetChild(data.rightRef, fuel - 1);
        var n := new ConditionNode(id, Compare(0, Null, Null, op), left, right);
        return Ok(n);
      } else if kind == 2 {
        var time :- TimeFromData(id, data);
        var n := new ConditionNode(id, time, null, null);
        return Ok(n);
      } else if kind == 3 {
        return Err(InvalidArgument);
      } else {
        return Err(OutOfRange);
      }
    }

    method GetChild(ref: Ref, ghost fuel: nat) returns (r: Result<ConditionNode?>)
      requires ReadChild(db.conditions, ref, fuel) != Err(OutOfFuel)
      ensures r.Ok? <==> ReadChild(db.conditions, ref, fuel).Ok?
      ensures r.Ok? && r.value != null ==> r.value.Valid() && fresh(r.value.Repr)
      ensures r.Ok? ==> TreeOf(r.value) == ReadChild(db.conditions, ref, fuel).value
      ensures r.Err? ==> Err(r.error) == ReadChild(db.conditions, ref, fuel)
      decreases fuel, 1
    {
      match ref
      case NoRef => return Ok(null);
      case IdRef(id) =>
        var n :- GetRuleCondition(id, fuel);
        return Ok(n);
      case Embedded(m) =>
        r := DeserializeChildNode(ref);
        return r;
    }
  }

  lemma DeleteNothing(db: Db)
    ensures DeleteConditions(db, {}) == db
  {
    assert ForgetConditions(db.rules, {}) == db.rules;
  }

  lemma DeleteTwice(db: Db, a: set<nat>, b: set<nat>)
    ensures DeleteConditions(DeleteConditions(db, a), b) == DeleteConditions(db, a + b)
  {
    assert db.conditions - a - b == db.conditions - (a + b);
    var twice := DeleteConditions(DeleteConditions(db, a), b).rules;
    var once := DeleteConditions(db, a + b).rules;
    assert forall k :: k in db.rules ==> twice[k] == once[k];
  }

  // ---------- actions ----------

  class ActionSerialize {
    const db: Database

    constructor (db: Database)
      ensures this.db == db
    {
      this.db := db;
    }

    method AddActionOnly(a: Action) returns (id: nat)
      modifies db`actions
      ensures (db.Content(), id) == RuleStore.AddActionOnly(old(db.Content()), a)
    {
      id := db.WriteAction(a.id, a.head);
    }

    /** AddAction: the header, then the old sub actions out and the new ones in, one by one. */
    method AddAction(a: Action) returns (id: nat)
      modifies db`actions, db`subActions
      ensures (db.Content(), id) == RuleStore.AddAction(old(db.Content()), a)
    {
      id := AddActionOnly(a);
      if a.id != 0 {
        db.RemoveSubActions(a.id);
      }
      ghost var kept := db.subActions;
      ghost var headed := db.actions;
      assert a.subs[0..] == a.subs;
      for i := 0 to |a.subs|
        invariant db.actions == headed
        invariant Append(db.subActions, id, a.subs[i..]) == Append(kept, id, a.subs)
      {
        assert a.subs[i..][1..] == a.subs[i + 1..];
        db.InsertSubAction(id, a.subs[i]);
      }
    }

    /** GetActionsFromQuery: first the actions of the selected rows, then for each its sub actions. */
    method GetActionsFromQuery(result: seq<(nat, ActionHead)>) returns (actions: seq<Action>)
      ensures |actions| == |result|
      ensures forall i :: 0 <= i < |result| ==>
        actions[i] == Action(result[i].0, result[i].1, SubsOf(db.subActions, result[i].0))
    {
      actions := [];
      for i := 0 to |result|
        invariant |actions| == i
        invariant forall j :: 0 <= j < i ==> actions[j] == Action(result[j].0, result[j].1, [])
      {
        actions := actions + [Action(result[i].0, result[i].1, [])];
      }
      for i := 0 to |actions|
        invariant |actions| == |result|
        invariant forall j :: i <= j < |result| ==> actions[j] == Action(result[j].0, result[j].1, [])
        invariant forall j :: 0 <= j < i ==>
          actions[j] == Action(result[j].0, result[j].1, SubsOf(db.subActions, result[j].0))
      {
        var subs := SelectSubActions(actions[i].id);
        actions := actions[i := actions[i].(subs := subs)];
      }
    }

    // The rows of sub_actions that belong to one action
    method SelectSubActions(owner: nat) returns (subs: seq<SubAction>)
      ensures subs == SubsOf(db.subActions, owner)
    {
      subs := [];
      for i := 0 to |db.subActions|
        invariant subs + SubsOf(db.subActions[i..], owner) == SubsOf(db.subActions, owner)
      {
        assert db.subActions[i..][1..] == db.subActions[i + 1..];
        if db.subActions[i].owner == owner {
          subs := subs + [db.subActions[i].sub];
        }
      }
    }

    method GetAction(id: nat) returns (r: Option<Action>)
      ensures r.Some? <==> id in db.actions
      ensures r.Some? ==>
        r.value.id == id && r.value.head == db.actions[id] && r.value.subs == SubsOf(db.subActions, id)
    {
      var result := if id in db.actions then [(id, db.actions[id])] else [];
      var actions := GetActionsFromQuery(result);
      if |actions| == 0 {
        return None;
      }
      return Some(actions[0]);
    }

    method RemoveAction(id: nat)
      modifies db`actions, db`subActions, db`rules
      ensures db.Content() == DeleteAction(old(db.Content()), id)
    {
      db.DeleteActionRow(id);
    }
  }

  // ---------- rules ----------

  /** A Rule object; saving it writes the ids it gets back into it. */
  class RuleObject {
    var id: nat
    const head: RuleHead
    const condition: ConditionNode?
    var effect: Action

    constructor (id: nat, head: RuleHead, condition: ConditionNode?, effect: Action)
      ensures this.id == id && this.head == head && this.condition == condition && this.effect == effect
    {
      this.id, this.head, this.condition, this.effect := id, head, condition, effect;
    }

    ghost predicate Valid() {
      condition != null ==> condition.Valid()
    }

    ghost function Value(): Rule
      requires Valid()
      reads this, ReprOf(condition)
    {
      Rule(id, head, TreeOf(condition), effect)
    }

    ghost predicate Is(r: Rule)
      reads this, ReprOf(condition)
    {
      condition != null && Valid() && Value() == r
    }
  }

  ghost predicate AreObjectsOf(objects: seq<RuleObject>, rules: seq<Rule>)
    reads objects, set i, n | 0 <= i < |objects| && n in ReprOf(objects[i].condition) :: n
  {
    |objects| == |rules| && forall i :: 0 <= i < |objects| ==> objects[i].Is(rules[i])
  }

  // The objects of all rows with these ids
  ghost predicate AreRulesWithIds(objects: seq<RuleObject>, db: Db, ids: seq<nat>)
    reads objects, set i, n | 0 <= i < |objects| && n in ReprOf(objects[i].condition) :: n
  {
    && |objects| == |ids| && AreRules(db, ids)
    && forall i :: 0 <= i < |ids| ==> LoadRule(db, ids[i]).Ok? && objects[i].Is(LoadRule(db, ids[i]).value)
  }

  // Loading all rules, by their ids instead of their places in the list
  lemma ListedLoads(db: Db, ids: seq<nat>)
    requires Lists(ids, db.rules.Keys) && AreRules(db, ids)
    ensures GetRules(db, ids).Ok? <==> forall k :: k in db.rules ==> LoadRule(db, k).Ok?
    ensures GetRules(db, ids).Err? ==> exists k :: k in db.rules && LoadRule(db, k) == Err(GetRules(db, ids).error)
    ensures GetRules(db, ids).Ok? ==>
      && |GetRules(db, ids).value| == |ids|
      && forall i :: 0 <= i < |ids| ==> LoadRule(db, ids[i]) == Ok(GetRules(db, ids).value[i])
  {
    GetRulesExactly(db, ids);
    forall k | k in db.rules
      ensures exists i :: 0 <= i < |ids| && ids[i] == k
    {
      assert k in ids;
    }
  }

  lemma AreObjectsNext(objects: seq<RuleObject>, rules: seq<Rule>, o: RuleObject, r: Rule)
    requires AreObjectsOf(objects, rules) && o.Is(r)
    ensures AreObjectsOf(objects + [o], rules + [r])
  {
  }

  // A query that cannot load one of its first rules throws that exception
  lemma {:induction false} FirstError(db: Db, ids: seq<nat>, n: nat)
    requires AreRules(db, ids) && n <= |ids| && GetRules(db, ids[..n]).Err?
    ensures GetRules(db, ids).Err? && GetRules(db, ids).error == GetRules(db, ids[..n]).error
    decreases |ids| - n
  {
    if n == |ids| {
      assert ids[..n] == ids;
    } else {
      GetRulesNext(db, ids[..n + 1], ids[..n], ids[n]);
      FirstError(db, ids, n + 1);
    }
  }

  // One more rule of a query, after those `found` so far
  lemma NextOfQuery(db: Db, ids: seq<nat>, i: nat, found: seq<Rule>)
    requires AreRules(db, ids) && i < |ids| && GetRules(db, ids[..i]) == Ok(found)
    ensures AreRules(db, ids[..i + 1])
    ensures LoadRule(db, ids[i]).Ok? ==> GetRules(db, ids[..i + 1]) == Ok(found + [LoadRule(db, ids[i]).value])
    ensures LoadRule(db, ids[i]).Err? ==>
      GetRules(db, ids).Err? && GetRules(db, ids).error == LoadRule(db, ids[i]).error
  {
    GetRulesNext(db, ids[..i + 1], ids[..i], ids[i]);
    if LoadRule(db, ids[i]).Err? {
      FirstError(db, ids, i + 1);
    }
  }

  class RuleSerialize {
    const db: Database
    const conditions: ConditionSerialize
    const actions: ActionSerialize

    constructor (db: Database)
      ensures this.db == db && conditions.db == db && actions.db == db
    {
      this.db := db;
      conditions := new ConditionSerialize(db);
      actions := new ActionSerialize(db);
    }

    ghost predicate Valid() {
      conditions.db == db && actions.db == db
    }

    // The part of AddRule before the condition is inserted
    method PrepareSave(rule: RuleObject) returns (actionId: nat)
      requires Valid() && rule.Valid() && rule.condition != null
      modifies db
      ensures (db.Content(), actionId) == BeforeInsert(old(db.Content()), rule.Value())
    {
      if rule.condition.id != 0 {
        conditions.RemoveRuleCondition(rule.condition);
      }
      actionId := actions.AddAction(rule.effect);
    }

    /** AddRule inside a held transaction: on an error the tables are left half-written. */
    method AddRuleHeld(rule: RuleObject) returns (r: Result<()>)
      requires Valid() && rule.Valid()
      modifies db, rule, ReprOf(rule.condition)
      ensures r.Ok? <==> AddRule(old(db.Content()), old(rule.Value())).Ok?
      ensures r.Ok? ==> Ok((db.Content(), rule.Value())) == AddRule(old(db.Content()), old(rule.Value()))
      ensures r.Err? ==> Err(r.error) == AddRule(old(db.Content()), old(rule.Value()))
    {
      if rule.condition == null {
        return Err(InvalidArgument);
      }
      var actionId := PrepareSave(rule);
      rule.effect := rule.effect.(id := actionId);
      var _ :- conditions.InsertRec(rule.condition);
      var id :- db.WriteRule(rule.id, rule.head, rule.condition.id, rule.effect.id);
      rule.id := id;
      return Ok(());
    }

    /** AddRule in a transaction of its own. */
    method AddRuleCommitted(rule: RuleObject) returns (r: Result<()>)
      requires Valid() && rule.Valid()
      modifies db, rule, ReprOf(rule.condition)
      ensures r.Ok? <==> AddRule(old(db.Content()), old(rule.Value())).Ok?
      ensures r.Ok? ==> Ok((db.Content(), rule.Value())) == AddRule(old(db.Content()), old(rule.Value()))
      ensures r.Err? ==> db.Content() == old(db.Content())
    {
      var before := db.Content();
      r := AddRuleHeld(rule);
      if r.Err? {
        db.Rollback(before);
      }
    }

    // SetEffect and SetCondition for one rule of a query
    method LoadRow(id: nat, head: RuleHead, conditionId: nat, actionId: nat) returns (r: Result<RuleObject>)
      requires Valid() && Acyclic(db.conditions) && id in db.rules
      requires head == db.rules[id].head && actionId == db.rules[id].actionId.GetOr(0)
      requires conditionId == db.rules[id].conditionId.GetOr(0)
      ensures r.Ok? <==> LoadRule(db.Content(), id).Ok?
      ensures r.Err? ==> r.error == LoadRule(db.Content(), id).error
      ensures r.Ok? ==> fresh(r.value) && fresh(ReprOf(r.value.condition))
      ensures r.Ok? ==> r.value.Is(LoadRule(db.Content(), id).value)
    {
      var effect := actions.GetAction(actionId);
      AcyclicLoads(db.conditions, conditionId);
      ghost var fuel: nat :| Read(db.conditions, conditionId, fuel) != Err(OutOfFuel);
      LoadIsRead(db.conditions, conditionId, fuel);
      var condition :- conditions.GetRuleCondition(conditionId, fuel);
      var rule := new RuleObject(id, head, condition, effect.GetOr(DEFAULT_ACTION));
      return Ok(rule);
    }

    // The first loop of GetRulesFromQuery
    method Columns(ids: seq<nat>) returns (heads: seq<RuleHead>, conditionIds: seq<nat>, actionIds: seq<nat>)
      requires AreRules(db.Content(), ids)
      ensures |heads| == |conditionIds| == |actionIds| == |ids|
      ensures forall j :: 0 <= j < |ids| ==>
        && heads[j] == db.rules[ids[j]].head && conditionIds[j] == db.rules[ids[j]].conditionId.GetOr(0)
        && actionIds[j] == db.rules[ids[j]].actionId.GetOr(0)
    {
      heads, conditionIds, actionIds := [], [], [];
      for i := 0 to |ids|
        invariant |heads| == |conditionIds| == |actionIds| == i
        invariant forall j :: 0 <= j < i ==>
          && heads[j] == db.rules[ids[j]].head && conditionIds[j] == db.rules[ids[j]].conditionId.GetOr(0)
          && actionIds[j] == db.rules[ids[j]].actionId.GetOr(0)
      {
        var row := db.rules[ids[i]];
        heads := heads + [row.head];
        conditionIds := conditionIds + [row.conditionId.GetOr(0)];
        actionIds := actionIds + [row.actionId.GetOr(0)];
      }
    }

    /** GetRulesFromQuery: first the columns of the selected rows, then for each its effect and its condition. The
        first condition that cannot be read ends it. */
    method GetRulesFromQuery(ids: seq<nat>) returns (r: Result<seq<RuleObject>>)
      requires Valid() && Acyclic(db.conditions) && AreRules(db.Content(), ids)
      ensures r.Ok? <==> GetRules(db.Content(), ids).Ok?
      ensures r.Err? ==> r.error == GetRules(db.Content(), ids).error
      ensures r.Ok? ==> forall i :: 0 <= i < |r.value| ==> fresh(r.value[i]) && fresh(ReprOf(r.value[i].condition))
      ensures r.Ok? ==> AreObjectsOf(r.value, GetRules(db.Content(), ids).value)
    {
      var heads, conditionIds, actionIds := Columns(ids);
      var rules: seq<RuleObject> := [];
      ghost var found: seq<Rule> := [];
      for i := 0 to |ids|
        invariant AreRules(db.Content(), ids[..i]) && GetRules(db.Content(), ids[..i]) == Ok(found)
        invariant forall j :: 0 <= j < |rules| ==> fresh(rules[j]) && fresh(ReprOf(rules[j].condition))
        invariant AreObjectsOf(rules, found)
      {
        var loaded := LoadRow(ids[i], heads[i], conditionIds[i], actionIds[i]);
        NextOfQuery(db.Content(), ids, i, found);
        if loaded.Err? {
          return Err(loaded.error);
        }
        AreObjectsNext(rules, found, loaded.value, LoadRule(db.Content(), ids[i]).value);
        found := found + [LoadRule(db.Content(), ids[i]).value];
        rules := rules + [loaded.value];
      }
      assert ids[..|ids|] == ids;
      return Ok(rules);
    }

    /** GetRule: a new object with new condition objects. */
    method GetRule(id: nat) returns (r: Result<Option<RuleObject>>)
      requires Valid() && Acyclic(db.conditions)
      ensures r.Ok? <==> RuleStore.GetRule(db.Content(), id).Ok?
      ensures r.Err? ==> r.error == RuleStore.GetRule(db.Content(), id).error
      ensures r.Ok? ==> (r.value.Some? <==> RuleStore.GetRule(db.Content(), id).value.Some?)
      ensures r.Ok? && r.value.Some? ==>
        && fresh(r.value.value) && fresh(ReprOf(r.value.value.condition))
        && r.value.value.Is(RuleStore.GetRule(db.Content(), id).value.value)
    {
      if id !in db.rules {
        return Ok(None);
      }
      OneRule(db.Content(), id);
      var rules := GetRulesFromQuery([id]);
      if rules.Err? {
        return Err(rules.error);
      }
      assert rules.value[0].Is(RuleStore.LoadRule(db.Content(), id).value);
      return Ok(Some(rules.value[0]));
    }

    /** GetAllRules: all rules in the order of their ids, or none. */
    method GetAllRules() returns (r: Result<seq<RuleObject>>)
      requires Valid() && Acyclic(db.conditions)
      ensures r.Ok? <==> forall k :: k in db.rules ==> LoadRule(db.Content(), k).Ok?
      ensures r.Err? ==> exists k :: k in db.rules && LoadRule(db.Content(), k) == Err(r.error)
      ensures r.Ok? ==> exists ids :: Lists(ids, db.rules.Keys) && AreRulesWithIds(r.value, db.Content(), ids)
    {
      var ids := Listed(db.rules.Keys);
      ListedAreRules(db.Content(), ids);
      ListedLoads(db.Content(), ids);
      r := GetRulesFromQuery(ids);
    }

    /** RemoveRule(id): load the rule, delete its row, then its condition rows, then its action. */
    method RemoveRule(id: nat) returns (r: Result<()>)
      requires Valid() && Acyclic(db.conditions)
      modifies db
      ensures r.Ok? <==> RuleStore.RemoveRule(old(db.Content()), id).Ok?
      ensures r.Ok? ==> Ok(db.Content()) == RuleStore.RemoveRule(old(db.Content()), id)
      ensures r.Err? ==> db.Content() == old(db.Content())
    {
      ghost var start := db.Content();
      var found :- GetRule(id);
      if found.Some? {
        var rule := found.value;
        ghost var loaded := rule.Value();
        db.DeleteRule(rule.id);
        assert db.Content() == start.(rules := start.rules - {loaded.id});
        conditions.RemoveRuleCondition(rule.condition);
        actions.RemoveAction(rule.effect.id);
        assert db.Content() == RemoveLoadedRule(start, loaded);
      }
      return Ok(());
    }
  }
}
