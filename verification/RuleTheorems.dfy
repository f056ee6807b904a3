/** What saving, loading and removing rules amounts to: the four tables behave as one map of rules. */
module RuleTheorems {
  import opened Wrappers
  import opened Conditions
  import opened ConditionTable
  import opened RowKeys
  import opened Actions
  import opened Tables
  import opened RuleStore

  // ---------- small facts about the parts of a save ----------

  lemma AddActionEffect(db: Db, a: Action)
    requires ForeignKeysResolve(db)
    ensures var (db', id) := AddAction(db, a);
      && id != 0 && (if a.id == 0 then id !in db.actions else id == a.id)
      && db'.rules == db.rules && db'.conditions == db.conditions && db'.actions == db.actions[id := a.head]
      && Without(db'.subActions, id) == Without(db.subActions, id)
      && forall o :: SubsOf(db'.subActions, o) == if o == id then a.subs else SubsOf(db.subActions, o)
  {
    var (db1, id) := AddActionOnly(db, a);
    var kept := if a.id != 0 then Without(db1.subActions, a.id) else db1.subActions;
    WithoutMembers(db.subActions, id);
    AppendEffect(kept, id, a.subs, db1.actions.Keys);
    if a.id != 0 {
      WithoutNone(kept, db1.actions.Keys - {id}, id);
    }
    forall o
      ensures SubsOf(kept, o) == if o == id then [] else SubsOf(db.subActions, o)
    {
      WithoutOthers(db.subActions, id, o);
      if a.id == 0 {
        WithoutNone(db.subActions, db.actions.Keys, id);
      }
    }
  }

  lemma {:induction false} StoredTwice(t: Table, u: Table, c: Condition)
    requires Stored(t, c) && Stored(u, c)
    ensures AgreeOn(t, u, c.Ids())
  {
    if !c.Compare? {
    } else {
      StoredTwice(t, u, c.left);
      StoredTwice(t, u, c.right);
    }
  }

  // A loaded condition: its rows are there, all its ids are assigned
  lemma LoadedCondition(db: Db, id: nat)
    requires Consistent(db) && Load(db.conditions, id).Ok?
    ensures var c := Load(db.conditions, id).value;
      && !c.Null? && c.id == id && Stored(db.conditions, c) && !c.HasDevice()
      && c.AllPreset() && c.Ids() <= db.conditions.Keys && c.PresetIds() == c.Ids()
  {
    LoadIsStored(db.conditions, id);
    StoredIds(db.conditions, Load(db.conditions, id).value);
  }

  // Nothing is loaded through a null condition column
  lemma LoadNull(db: Db)
    requires Consistent(db)
    ensures Load(db.conditions, 0) == Err(OutOfRange)
  {
    assert Read(db.conditions, 0, 1) == Err(OutOfRange);
    LoadIsRead(db.conditions, 0, 1);
  }

  /** What AddRule returns, put together from the two saves before it. */
  lemma AddRuleParts(db: Db, r: Rule, db2: Db, actionId: nat, u: Table, d: Condition)
    requires !r.condition.Null? && BeforeInsert(db, r) == (db2, actionId)
    requires Insert(db2.conditions, r.condition) == Ok((u, d))
    requires !d.Null? && d.id in u && actionId in db2.actions
    ensures
      var id := if r.id == 0 then FreshId(db2.rules.Keys) else r.id;
      var rules := db2.rules[id := RuleRow(r.head, Some(d.id), Some(actionId))];
      AddRule(db, r) ==
        Ok((Db(rules, u, db2.actions, db2.subActions), Rule(id, r.head, d, r.effect.(id := actionId))))
  {
  }

  lemma ForgetsNoCondition(rules: map<nat, RuleRow>, ids: set<nat>)
    requires forall k :: k in rules && rules[k].conditionId.Some? ==> rules[k].conditionId.value !in ids
    ensures ForgetConditions(rules, ids) == rules
  {
  }

  lemma ForgetsNoAction(rules: map<nat, RuleRow>, id: nat)
    requires forall k :: k in rules ==> rules[k].actionId != Some(id)
    ensures ForgetActions(rules, id) == rules
  {
  }

  // ---------- any rule ----------

  // The condition rows a save deletes first
  ghost function Gone(r: Rule): set<nat> {
    if !r.condition.Null? && r.condition.id != 0 then r.condition.PresetIds() else {}
  }

  /** When the ids a rule brings along can be saved. */
  ghost predicate CanSave(db: Db, r: Rule) {
    !r.condition.Null? && IdsFit(db.conditions.Keys - Gone(r), InsertOrder(r.condition))
  }

  /** Saving succeeds exactly then; the other outcomes are the two errors. */
  lemma SaveSucceedsExactly(db: Db, r: Rule)
    requires Consistent(db)
    ensures AddRule(db, r).Ok? <==> CanSave(db, r)
    ensures AddRule(db, r).Err? ==>
      AddRule(db, r).error == if r.condition.Null? then InvalidArgument else UniqueConstraint
  {
    if !r.condition.Null? {
      BeforeInsertConditions(db, r);
      var t := BeforeInsert(db, r).0.conditions;
      InsertExactly(t, r.condition);
      InsertError(t, r.condition);
      AddRuleConsistent(db, r);
      if Insert(t, r.condition).Ok? {
        SaveParts(db, r);
      }
    }
  }

  lemma BeforeInsertConditions(db: Db, r: Rule)
    requires !r.condition.Null?
    ensures BeforeInsert(db, r).0.conditions == db.conditions - Gone(r)
  {
  }

  // How the tables look after a rule was saved as `s`
  ghost predicate SavedAs(db: Db, r: Rule, db': Db, s: Rule) {
    && !r.condition.Null? && !s.condition.Null?
    && s.head == r.head && s.effect == r.effect.(id := s.effect.id)
    && s.effect.id != 0 && (if r.effect.id == 0 then s.effect.id !in db.actions else s.effect.id == r.effect.id)
    && (if r.id == 0 then s.id !in db.rules else s.id == r.id)
    && Inserted(db.conditions - Gone(r), r.condition, db'.conditions, s.condition)
    && db'.rules == ForgetConditions(db.rules, Gone(r) * db.conditions.Keys)
                      [s.id := RuleRow(s.head, Some(s.condition.id), Some(s.effect.id))]
    && db'.actions == db.actions[s.effect.id := s.effect.head]
    && Without(db'.subActions, s.effect.id) == Without(db.subActions, s.effect.id)
    && forall o :: SubsOf(db'.subActions, o) == if o == s.effect.id then s.effect.subs else SubsOf(db.subActions, o)
  }

  lemma SaveParts(db: Db, r: Rule)
    requires Consistent(db) && !r.condition.Null? && Insert(BeforeInsert(db, r).0.conditions, r.condition).Ok?
    ensures AddRule(db, r).Ok?
    ensures var (db', s) := AddRule(db, r).value; SavedAs(db, r, db', s)
  {
    var db1 := if r.condition.id != 0 then DeleteConditions(db, r.condition.PresetIds()) else db;
    DeleteConditionsConsistent(db, r.condition.PresetIds());
    AddActionEffect(db1, r.effect);
    var (db2, actionId) := AddAction(db1, r.effect);
    BeforeInsertConditions(db, r);
    ForgetsNoCondition(db.rules, {});
    assert {} * db.conditions.Keys == {};
    InsertStores(db2.conditions, r.condition);
    var (u, d) := Insert(db2.conditions, r.condition).value;
    AddRuleParts(db, r, db2, actionId, u, d);
  }

  // ---------- a new rule ----------

  ghost predicate IsNew(r: Rule) {
    r.id == 0 && r.effect.id == 0 && !r.condition.Null? && r.condition.AllZero()
  }

  lemma SaveNew(db: Db, r: Rule)
    requires Consistent(db) && IsNew(r)
    ensures AddRule(db, r).Ok?
    ensures var (db', s) := AddRule(db, r).value; SavedAs(db, r, db', s)
  {
    InsertUnassigned(BeforeInsert(db, r).0.conditions, r.condition);
    SaveParts(db, r);
  }

  /** A new rule is always saved, and it is loaded back as it was saved, with the ids it was given, exactly when no
      device condition is in it; otherwise loading it throws. */
  lemma SaveThenLoad(db: Db, r: Rule)
    requires Consistent(db) && IsNew(r)
    ensures AddRule(db, r).Ok?
    ensures var (db', s) := AddRule(db, r).value;
      GetRule(db', s.id) == if r.condition.HasDevice() then Err(InvalidArgument) else Ok(Some(s))
  {
    SaveNew(db, r);
    var (db', s) := AddRule(db, r).value;
    LoadStored(db'.conditions, s.condition);
    FillsIdsHasDevice(r.condition, s.condition);
  }

  lemma RemoveSaved(db: Db, r: Rule, db': Db, s: Rule)
    requires Consistent(db) && IsNew(r) && SavedAs(db, r, db', s)
    ensures RemoveLoadedRule(db', s) == db
  {
    assert db.conditions - {} == db.conditions;
    assert forall k :: k in db.rules ==> RowResolves(db, db.rules[k]);
    ForgetsNoCondition(db.rules, Gone(r) * db.conditions.Keys);
    assert db'.rules - {s.id} == db.rules;
    assert s.condition.PresetIds() == s.condition.Ids();
    ForgetsNoCondition(db.rules, s.condition.Ids() * db'.conditions.Keys);
    assert db'.conditions - s.condition.Ids() == db.conditions;
    ForgetsNoAction(db.rules, s.effect.id);
    assert db'.actions - {s.effect.id} == db.actions;
    WithoutNone(db.subActions, db.actions.Keys, s.effect.id);
  }

  /** Saving a new rule and removing it by its id gives back the very same four tables; with a device condition
      in it the removal throws and the rule stays. In between all foreign keys resolve. */
  lemma SaveThenRemove(db: Db, r: Rule)
    requires Consistent(db) && IsNew(r)
    ensures AddRule(db, r).Ok?
    ensures var (db', s) := AddRule(db, r).value;
      && ForeignKeysResolve(db')
      && RemoveRule(db', s.id) == if r.condition.HasDevice() then Err(InvalidArgument) else Ok(db)
  {
    AddRuleConsistent(db, r);
    SaveNew(db, r);
    SaveThenLoad(db, r);
    var (db', s) := AddRule(db, r).value;
    RemoveSaved(db, r, db', s);
  }

  // ---------- a loaded rule saved again ----------

  ghost predicate SameButSubIds(db: Db, db': Db) {
    && db'.rules == db.rules && db'.conditions == db.conditions && db'.actions == db.actions
    && forall o :: SubsOf(db'.subActions, o) == SubsOf(db.subActions, o)
  }

  // No other rule has the root of its condition among `ids`
  ghost predicate NotShared(db: Db, id: nat, ids: set<nat>) {
    forall k :: k in db.rules && k != id && db.rules[k].conditionId.Some? ==> db.rules[k].conditionId.value !in ids
  }

  // A condition that brings all its ids, none of them twice, is saved as it is
  lemma SavePreset(db: Db, r: Rule)
    requires Consistent(db) && !r.condition.Null? && r.condition.AllPreset()
    ensures AddRule(db, r).Ok? <==> r.condition.Distinct()
    ensures AddRule(db, r).Ok? ==>
      var (db', s) := AddRule(db, r).value; SavedAs(db, r, db', s) && s.condition == r.condition
  {
    var t := BeforeInsert(db, r).0.conditions;
    BeforeInsertConditions(db, r);
    assert r.condition.PresetIds() == r.condition.Ids();
    InsertPreset(t, r.condition);
    if Insert(t, r.condition).Ok? {
      SaveParts(db, r);
      var (db', s) := AddRule(db, r).value;
      FillsIdsPreset(r.condition, s.condition);
    }
  }

  /** Saving a rule as it was loaded changes nothing but the keys in sub_actions exactly when its condition has no
      row twice, its action column is not null and no other rule's condition starts at one of its rows. Loading any
      rule then gives what it gave before. */
  lemma ResaveLoaded(db: Db, id: nat, r: Rule)
    requires Consistent(db) && GetRule(db, id) == Ok(Some(r))
    ensures (AddRule(db, r).Ok? && SameButSubIds(db, AddRule(db, r).value.0))
      <==> (r.condition.Distinct() && db.rules[id].actionId.Some? && NotShared(db, id, r.condition.Ids()))
    ensures AddRule(db, r).Ok? && SameButSubIds(db, AddRule(db, r).value.0) ==>
      && AddRule(db, r).value.1 == r
      && forall k :: GetRule(AddRule(db, r).value.0, k) == GetRule(db, k)
  {
    var row := db.rules[id];
    LoadNull(db);
    LoadedCondition(db, row.conditionId.value);
    assert RowResolves(db, row);
    SavePreset(db, r);
    if r.condition.Distinct() {
      var (db', s) := AddRule(db, r).value;
      ResavedTables(db, id, r, db', s);
      if SameButSubIds(db, db') {
        SameTablesLoad(db, db');
      }
    }
  }

  lemma SameTablesLoad(db: Db, db': Db)
    requires SameButSubIds(db, db')
    ensures forall k :: GetRule(db', k) == GetRule(db, k)
  {
  }

  lemma ResavedTables(db: Db, id: nat, r: Rule, db': Db, s: Rule)
    requires id in db.rules && SavedAs(db, r, db', s) && s.condition == r.condition && Gone(r) == r.condition.Ids()
    requires Stored(db.conditions, r.condition) && r.condition.Ids() <= db.conditions.Keys
    requires r.id == id != 0 && r.head == db.rules[id].head && Some(r.condition.id) == db.rules[id].conditionId
    requires r.effect == GetAction(db, db.rules[id].actionId.GetOr(0)).GetOr(DEFAULT_ACTION)
    requires RowResolves(db, db.rules[id]) && 0 !in db.actions
    ensures SameButSubIds(db, db') <==> db.rules[id].actionId.Some? && NotShared(db, id, r.condition.Ids())
    ensures SameButSubIds(db, db') ==> s == r
  {
    var row := db.rules[id];
    StoredTwice(db.conditions, db'.conditions, r.condition);
    assert db'.conditions == db.conditions;
    assert r.condition.Ids() * db.conditions.Keys == r.condition.Ids();
    ResavedRules(db, db', id, RuleRow(row.head, row.conditionId, Some(s.effect.id)), r.condition.Ids());
  }

  // When clearing columns and writing one row back leaves the rules as they were
  lemma ResavedRules(db: Db, db': Db, id: nat, row: RuleRow, ids: set<nat>)
    requires id in db.rules && db'.rules == ForgetConditions(db.rules, ids)[id := row]
    ensures db'.rules == db.rules <==> (row == db.rules[id] && NotShared(db, id, ids))
  {
  }

  // ---------- the tables as a map of rules ----------

  // The rows of rule `r` are all there
  ghost predicate Holds(db: Db, r: Rule) {
    && !r.condition.Null? && Stored(db.conditions, r.condition)
    && r.condition.Distinct() && !r.condition.HasDevice()
    && r.id in db.rules && db.rules[r.id] == RuleRow(r.head, Some(r.condition.id), Some(r.effect.id))
    && r.effect.id in db.actions && db.actions[r.effect.id] == r.effect.head
    && SubsOf(db.subActions, r.effect.id) == r.effect.subs
  }

  // Two rules share neither a condition row nor their action
  ghost predicate Apart(a: Rule, b: Rule) {
    a.condition.Ids() !! b.condition.Ids() && a.effect.id != b.effect.id
  }

  /** The tables hold exactly the rules of `m`, each with condition rows and an action of its own. */
  ghost predicate Represents(db: Db, m: map<nat, Rule>) {
    && Consistent(db)
    && m.Keys == db.rules.Keys
    && AllHold(db, m)
    && AllApart(m)
  }

  ghost predicate AllHold(db: Db, m: map<nat, Rule>) {
    forall k :: k in m ==> m[k].id == k && Holds(db, m[k])
  }

  ghost predicate AllApart(m: map<nat, Rule>) {
    forall j, k :: j in m && k in m && j != k ==> Apart(m[j], m[k])
  }

  /** So loading finds them. */
  lemma RepresentedLoads(db: Db, m: map<nat, Rule>, id: nat)
    requires Represents(db, m)
    ensures GetRule(db, id) == Ok(if id in m then Some(m[id]) else None)
  {
    if id in m {
      assert Holds(db, m[id]);
      LoadStored(db.conditions, m[id].condition);
    }
  }

  /** GetAllRules lists exactly the rules of the map, in the order of their ids. */
  lemma AllRulesLoad(db: Db, m: map<nat, Rule>, ids: seq<nat>)
    requires Represents(db, m) && Lists(ids, db.rules.Keys)
    ensures AreRules(db, ids)
    ensures GetRules(db, ids).Ok? && |GetRules(db, ids).value| == |ids|
    ensures forall i :: 0 <= i < |ids| ==> GetRules(db, ids).value[i] == m[ids[i]]
  {
    ListedAreRules(db, ids);
    forall i | 0 <= i < |ids|
      ensures LoadRule(db, ids[i]) == Ok(m[ids[i]])
    {
      RepresentedLoads(db, m, ids[i]);
    }
    GetRulesExactly(db, ids);
  }

  /** GetAllRules succeeds if and only if GetRule does for every rule; it throws as soon as one rule has a null
      condition column. */
  lemma AllRulesOrNone(db: Db, ids: seq<nat>)
    requires Consistent(db) && Lists(ids, db.rules.Keys)
    ensures AreRules(db, ids)
    ensures GetRules(db, ids).Ok? <==> forall k :: k in db.rules ==> GetRule(db, k).Ok?
    ensures (exists k :: k in db.rules && db.rules[k].conditionId == None) ==> GetRules(db, ids).Err?
  {
    ListedAreRules(db, ids);
    GetRulesExactly(db, ids);
    LoadNull(db);
    forall k | k in db.rules
      ensures exists i :: 0 <= i < |ids| && ids[i] == k
    {
      assert k in ids;
    }
    if k :| k in db.rules && db.rules[k].conditionId == None {
      assert GetRule(db, k).Err?;
    }
  }

  /** So one new rule with a device condition keeps all rules from being loaded, and from being checked. */
  lemma DeviceRuleBlocksAll(db: Db, r: Rule, ids: seq<nat>)
    requires Consistent(db) && IsNew(r) && r.condition.HasDevice()
    requires AddRule(db, r).Ok? ==> Lists(ids, AddRule(db, r).value.0.rules.Keys)
    ensures AddRule(db, r).Ok? && AreRules(AddRule(db, r).value.0, ids)
    ensures GetRules(AddRule(db, r).value.0, ids).Err?
  {
    SaveNew(db, r);
    SaveThenLoad(db, r);
    AddRuleConsistent(db, r);
    AllRulesOrNone(AddRule(db, r).value.0, ids);
  }

  lemma HeldIds(db: Db, r: Rule)
    requires Consistent(db) && Holds(db, r)
    ensures r.condition.AllPreset() && r.condition.Ids() <= db.conditions.Keys
    ensures r.condition.PresetIds() == r.condition.Ids()
    ensures r.effect.id != 0 && r.id != 0
  {
    StoredIds(db.conditions, r.condition);
  }

  // What a held rule needs to stay held
  ghost predicate KeepsRowsOf(db: Db, db': Db, r: Rule) {
    && r.id in db.rules && r.id in db'.rules && db'.rules[r.id] == db.rules[r.id]
    && AgreeOn(db.conditions, db'.conditions, r.condition.Ids())
    && r.effect.id in db.actions && r.effect.id in db'.actions
    && db'.actions[r.effect.id] == db.actions[r.effect.id]
    && SubsOf(db'.subActions, r.effect.id) == SubsOf(db.subActions, r.effect.id)
  }

  lemma HoldsFrame(db: Db, db': Db, r: Rule)
    requires Holds(db, r) && KeepsRowsOf(db, db', r)
    ensures Holds(db', r)
  {
    StoredFrame(db.conditions, db'.conditions, r.condition);
  }

  // The tables after one rule was written and the others kept stand for the updated map
  lemma RepresentsUpdate(db: Db, db': Db, m: map<nat, Rule>, s: Rule)
    requires Represents(db, m) && Consistent(db') && Holds(db', s)
    requires db'.rules.Keys == db.rules.Keys + {s.id}
    requires forall k :: k in m && k != s.id ==> KeepsRowsOf(db, db', m[k]) && Apart(s, m[k])
    ensures Represents(db', m[s.id := s])
  {
    UpdateHolds(db, db', m, s);
    UpdateApart(m, s);
  }

  lemma UpdateHolds(db: Db, db': Db, m: map<nat, Rule>, s: Rule)
    requires AllHold(db, m) && Holds(db', s)
    requires forall k :: k in m && k != s.id ==> KeepsRowsOf(db, db', m[k])
    ensures AllHold(db', m[s.id := s])
  {
    forall k | k in m && k != s.id
      ensures Holds(db', m[k])
    {
      HoldsFrame(db, db', m[k]);
    }
  }

  lemma UpdateApart(m: map<nat, Rule>, s: Rule)
    requires AllApart(m) && forall k :: k in m && k != s.id ==> Apart(s, m[k])
    ensures AllApart(m[s.id := s])
  {
  }

  // The rule brings along no condition id and no action id of another rule
  ghost predicate OwnIds(m: map<nat, Rule>, r: Rule) {
    forall k :: k in m && k != r.id ==> m[k].condition.Ids() !! r.condition.PresetIds() && m[k].effect.id != r.effect.id
  }

  // `s` is `r` with the ids it was given, the rule's own new one if it had none
  ghost predicate GivenIds(m: map<nat, Rule>, r: Rule, s: Rule) {
    && s.head == r.head && FillsIds(r.condition, s.condition) && s.effect == r.effect.(id := s.effect.id)
    && (if r.id == 0 then s.id !in m else s.id == r.id)
    && (r.effect.id != 0 ==> s.effect.id == r.effect.id)
  }

  /** Saving a rule, new or edited, with new conditions anywhere among its old ones: where it succeeds it writes one
      entry of the map, the rule with the ids it was given. No other rule changes, although rows are deleted and
      inserted again and columns are set to null on the way. */
  lemma SaveUpdates(db: Db, m: map<nat, Rule>, r: Rule)
    requires Represents(db, m) && CanSave(db, r) && !r.condition.HasDevice() && OwnIds(m, r)
    ensures AddRule(db, r).Ok?
    ensures var (db', s) := AddRule(db, r).value; GivenIds(m, r, s) && Represents(db', m[s.id := s])
  {
    SaveSucceedsExactly(db, r);
    SavedIs(db, r);
    AddRuleConsistent(db, r);
    var (db', s) := AddRule(db, r).value;
    SavedHolds(db, m, r, db', s);
    forall k | k in m && k != s.id
      ensures KeepsRowsOf(db, db', m[k]) && Apart(s, m[k])
    {
      HeldIds(db, m[k]);
      SaveKeeps(db, r, db', s, m[k]);
    }
    RepresentsUpdate(db, db', m, s);
  }

  lemma SavedIs(db: Db, r: Rule)
    requires Consistent(db) && AddRule(db, r).Ok?
    ensures var (db', s) := AddRule(db, r).value; SavedAs(db, r, db', s)
  {
    SaveParts(db, r);
  }

  lemma SavedHolds(db: Db, m: map<nat, Rule>, r: Rule, db': Db, s: Rule)
    requires SavedAs(db, r, db', s) && !r.condition.HasDevice() && m.Keys == db.rules.Keys
    ensures Holds(db', s) && GivenIds(m, r, s) && db'.rules.Keys == db.rules.Keys + {s.id}
  {
    FillsIdsHasDevice(r.condition, s.condition);
  }

  lemma SaveKeeps(db: Db, r: Rule, db': Db, s: Rule, other: Rule)
    requires Consistent(db) && SavedAs(db, r, db', s) && Holds(db, other) && other.id != s.id
    requires other.condition.Ids() !! r.condition.PresetIds() && other.effect.id != r.effect.id
    ensures KeepsRowsOf(db, db', other) && Apart(s, other)
  {
    HeldIds(db, other);
    assert other.condition.Ids() <= (db.conditions - Gone(r)).Keys;
  }

  /** Removing a rule removes its entry: no other rule changes. */
  lemma RemoveUpdates(db: Db, m: map<nat, Rule>, id: nat)
    requires Represents(db, m)
    ensures RemoveRule(db, id).Ok? && Represents(RemoveRule(db, id).value, m - {id})
  {
    RepresentedLoads(db, m, id);
    StepConsistent(db, DropRule(id));
    if id in m {
      var db' := RemoveLoadedRule(db, m[id]);
      forall k | k in m && k != id
        ensures Holds(db', m[k])
      {
        RemoveKeeps(db, m[id], m[k]);
        HoldsFrame(db, db', m[k]);
      }
    } else {
      assert m - {id} == m;
    }
  }

  lemma RemoveKeeps(db: Db, r: Rule, other: Rule)
    requires Consistent(db) && Holds(db, r) && Holds(db, other) && Apart(r, other) && r.id != other.id
    ensures KeepsRowsOf(db, RemoveLoadedRule(db, r), other)
  {
    HeldIds(db, r);
    HeldIds(db, other);
    WithoutOthers(db.subActions, r.effect.id, other.effect.id);
  }

  // ---------- loaded rules that change when they are saved ----------

  /** When the action of a stored rule is deleted, the rule still loads, without an effect, and saving it as loaded
      gives it a new action. */
  lemma DeletedActionIsReplaced(db: Db, s: Rule)
    requires Consistent(db) && Holds(db, s)
    ensures
      var db2 := Step(db, DropAction(s.effect.id));
      var loaded := s.(effect := DEFAULT_ACTION);
      && GetRule(db2, s.id) == Ok(Some(loaded))
      && AddRule(db2, loaded).Ok? && !SameButSubIds(db2, AddRule(db2, loaded).value.0)
  {
    var db2 := Step(db, DropAction(s.effect.id));
    var loaded := s.(effect := DEFAULT_ACTION);
    DeleteActionConsistent(db, s.effect.id);
    LoadStored(db2.conditions, s.condition);
    assert GetRule(db2, s.id) == Ok(Some(loaded));
    HeldIds(db, s);
    SavePreset(db2, loaded);
    ResaveLoaded(db2, s.id, loaded);
  }

  function Leaf(id: nat): Condition {
    Constant(id, true)
  }

  const TWO_LEAVES := Compare(3, Leaf(1), Leaf(2), And)
  const LEAF_BELOW := Compare(1, Leaf(2), Null, And)
  const LEAF_TWICE := Compare(3, LEAF_BELOW, Leaf(2), And)

  /** Two saves after which a rule has a condition row twice: the second rule brings along ids of the first and makes
      its left child the parent of its right child. The first rule still loads, but cannot be saved as loaded. */
  lemma RowTwice(head: RuleHead, effect: Action)
    requires effect.id == 0
    ensures
      var first, second := Rule(1, head, TWO_LEAVES, effect), Rule(2, head, LEAF_BELOW, effect);
      var db := Run(EMPTY_DB, [SaveRule(first), SaveRule(second)]);
      && GetRule(db, 1).Ok? && GetRule(db, 1).value.Some?
      && GetRule(db, 1).value.value.condition == LEAF_TWICE
      && AddRule(db, GetRule(db, 1).value.value) == Err(UniqueConstraint)
  {
    var first, second := Rule(1, head, TWO_LEAVES, effect), Rule(2, head, LEAF_BELOW, effect);
    assert Ranked(map[], map[]);
    SavePreset(EMPTY_DB, first);
    AddRuleConsistent(EMPTY_DB, first);
    var (db1, s1) := AddRule(EMPTY_DB, first).value;
    SavePreset(db1, second);
    AddRuleConsistent(db1, second);
    var (db2, s2) := AddRule(db1, second).value;
    RunOfTwo(EMPTY_DB, SaveRule(first), SaveRule(second));
    LeafBelowSaved(db1, second, db2, s2);
    LeafTwiceLoads(db2);
  }

  lemma LeafBelowSaved(db1: Db, second: Rule, db2: Db, s2: Rule)
    requires Stored(db1.conditions, TWO_LEAVES) && 1 in db1.rules && db1.rules[1].conditionId == Some(3)
    requires second.condition == LEAF_BELOW && second.id == 2
    requires SavedAs(db1, second, db2, s2) && s2.condition == LEAF_BELOW
    ensures Stored(db2.conditions, LEAF_TWICE) && 1 in db2.rules && db2.rules[1].conditionId == Some(3)
  {
    assert LEAF_BELOW.PresetIds() == {1, 2};
    assert 3 in (db1.conditions - Gone(second)).Keys;
  }

  lemma LeafTwiceLoads(db: Db)
    requires Consistent(db) && Stored(db.conditions, LEAF_TWICE) && 1 in db.rules && db.rules[1].conditionId == Some(3)
    ensures GetRule(db, 1).Ok? && GetRule(db, 1).value.Some?
    ensures GetRule(db, 1).value.value.condition == LEAF_TWICE
    ensures AddRule(db, GetRule(db, 1).value.value) == Err(UniqueConstraint)
  {
    LoadStored(db.conditions, LEAF_TWICE);
    var loaded := GetRule(db, 1).value.value;
    assert 2 in LEAF_BELOW.PresetIds() && 2 in Leaf(2).PresetIds();
    assert LEAF_TWICE.AllPreset() && !LEAF_TWICE.Distinct();
    SavePreset(db, loaded);
    SaveSucceedsExactly(db, loaded);
  }

  lemma RunOfTwo(db: Db, a: Op, b: Op)
    ensures Run(db, [a, b]) == Step(Step(db, a), b)
  {
    assert [a, b][1..] == [b] && [b][1..] == [];
    assert Run(Step(db, a), [b]) == Run(Step(Step(db, a), b), []);
  }

  // ---------- runs ----------

  datatype Request = Save(rule: Rule) | Drop(id: nat)

  // What clients may send: of other rules that can be loaded they use no ids
  ghost predicate Allowed(db: Db, q: Request) {
    match q
    case Save(r) =>
      && !r.condition.HasDevice()
      && forall k :: k != r.id && GetRule(db, k).Ok? && GetRule(db, k).value.Some? ==>
           var other := GetRule(db, k).value.value;
           other.condition.Ids() !! r.condition.PresetIds() && other.effect.id != r.effect.id
    case Drop(_) => true
  }

  ghost function Perform(db: Db, q: Request): Db {
    match q
    case Save(r) => Step(db, SaveRule(r))
    case Drop(id) => Step(db, DropRule(id))
  }

  // The same request on a plain map of rules
  ghost predicate Performed(db: Db, before: map<nat, Rule>, q: Request, after: map<nat, Rule>) {
    match q
    case Save(r) => if CanSave(db, r) then exists s: Rule :: SavedIn(before, r, s, after) else after == before
    case Drop(id) => after == before - {id}
  }

  ghost predicate SavedIn(before: map<nat, Rule>, r: Rule, s: Rule, after: map<nat, Rule>) {
    GivenIds(before, r, s) && after == before[s.id := s]
  }

  lemma PerformRefines(db: Db, m: map<nat, Rule>, q: Request) returns (n: map<nat, Rule>)
    requires Represents(db, m) && Allowed(db, q)
    ensures Represents(Perform(db, q), n) && Performed(db, m, q, n)
  {
    match q
    case Save(r) =>
      SaveSucceedsExactly(db, r);
      if CanSave(db, r) {
        forall k | k in m && k != r.id
          ensures m[k].condition.Ids() !! r.condition.PresetIds() && m[k].effect.id != r.effect.id
        {
          RepresentedLoads(db, m, k);
        }
        SaveUpdates(db, m, r);
        var s := AddRule(db, r).value.1;
        n := m[s.id := s];
        assert SavedIn(m, r, s, n);
      } else {
        n := m;
      }
    case Drop(id) =>
      RemoveUpdates(db, m, id);
      n := m - {id};
  }

  // A run of allowed requests from empty tables
  ghost predicate IsRun(trace: seq<Db>, requests: seq<Request>) {
    && |trace| == |requests| + 1 && trace[0] == EMPTY_DB
    && forall i :: 0 <= i < |requests| ==>
         Allowed(trace[i], requests[i]) && trace[i + 1] == Perform(trace[i], requests[i])
  }

  /** After the first `n` requests of a run the tables stand for `m`, the map those requests make of the empty one,
      and so they did after every request before. */
  ghost predicate Describes(trace: seq<Db>, requests: seq<Request>, n: nat, m: map<nat, Rule>)
    requires n <= |requests| && |trace| == |requests| + 1
    decreases n, 0
  {
    Represents(trace[n], m) && if n == 0 then m == map[] else Continues(trace, requests, n - 1, m)
  }

  // Request `k` makes `m` of what the tables stood for before it
  ghost predicate Continues(trace: seq<Db>, requests: seq<Request>, k: nat, m: map<nat, Rule>)
    requires k < |requests| && |trace| == |requests| + 1
    decreases k, 1
  {
    exists before: map<nat, Rule> ::
      Describes(trace, requests, k, before) && Performed(trace[k], before, requests[k], m)
  }

  /** Over every run of saves and removals the four tables stand at each point for exactly the map of rules those
      requests describe. */
  lemma {:induction false} RunRefinesMap(trace: seq<Db>, requests: seq<Request>, n: nat) returns (m: map<nat, Rule>)
    requires IsRun(trace, requests) && n <= |requests|
    ensures Describes(trace, requests, n, m)
    decreases n
  {
    if n == 0 {
      assert Ranked(map[], map[]);
      m := map[];
    } else {
      var before := RunRefinesMap(trace, requests, n - 1);
      assert Allowed(trace[n - 1], requests[n - 1]) && trace[n] == Perform(trace[n - 1], requests[n - 1]);
      m := PerformRefines(trace[n - 1], before, requests[n - 1]);
    }
  }
}
