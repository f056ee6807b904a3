/** Evaluating conditions: IsSatisfied, ShouldExecuteOn, IsSatisfiedAfterEvent and the loop of CheckRules
    (backend/api/Rule.cpp, backend/api/Rule.h, backend/events/RuleEventHandler.cpp). */
module Evaluation {
  import opened Wrappers
  import opened Conditions
  import opened ConditionCodec
  import opened Actions
  import opened ActionExecution

  // How an evaluation goes wrong
  datatype Fault =
    | NullDereference  // a call through a null condition pointer
    | WrongEventType   // std::logic_error of RuleDeviceCondition::IsSatisfiedAfterEvent
    | MissingValue     // std::out_of_range of Properties::Get: metadata without a value

  datatype Outcome = Holds(b: bool) | Throws(fault: Fault)

  // What a device condition looks at
  datatype DeviceView = DeviceView(id: Int64, metadata: set<string>, values: map<string, Value>)

  datatype Event = PropertyChange(changed: DeviceView, property: string) | OtherEvent(kind: nat)

  // `clock` tells whether a time condition holds at the time of the evaluation
  datatype World = World(devices: map<Int64, DeviceView>, clock: Condition -> bool)

  // ---------- leaves ----------

  // nlohmann::json to int
  function ToInt(v: Value): Option<Int32> {
    match v
    case IntValue(n) => Some(ToInt32(n))
    case BoolValue(b) => Some(if b then 1 else 0)
    case FloatValue(r) => Some(ToInt32(if r < 0.0 then -((-r).Floor) else r.Floor))
    case _ => None
  }

  // RuleDeviceCondition::Compare
  function CompareValue(x: Int32, v1: Int32, v2: Int32, op: DeviceOp): bool {
    match op
    case DeviceEquals => v1 - v2 <= x <= v1 + v2
    case DeviceNotEquals => !(v1 - v2 <= x <= v1 + v2)
    case DeviceGreater => x > v1
    case DeviceLess => x < v1
    case DeviceInRange => if v1 <= v2 then v1 <= x <= v2 else x <= v2 || x >= v1
  }

  // GetProperty and Compare; a value that is no number is caught and counts as not satisfied
  function CheckProperty(d: DeviceView, c: Condition): Outcome
    requires c.Device?
  {
    if c.property in d.metadata && c.property !in d.values then Throws(MissingValue)
    else
      var v := if c.property in d.metadata then ToInt(d.values[c.property]) else None;
      Holds(v.Some? && CompareValue(v.value, c.val1, c.val2, c.deviceOp))
  }

  function DeviceNow(w: World, c: Condition): Outcome
    requires c.Device?
  {
    if !c.bound || c.property == "" || c.deviceId !in w.devices then Holds(false)
    else CheckProperty(w.devices[c.deviceId], c)
  }

  // ---------- the three virtual functions ----------

  function Not(a: Outcome): Outcome {
    if a.Holds? then Holds(!a.b) else a
  }

  // && and || evaluate their right side only when needed
  function AndAlso(a: Outcome, b: Outcome): Outcome {
    if a == Holds(true) then b else a
  }

  function OrElse(a: Outcome, b: Outcome): Outcome {
    if a == Holds(false) then b else a
  }

  function SameAs(a: Outcome, b: Outcome): Outcome {
    if a.Throws? then a else if b.Throws? then b else Holds(a.b == b.b)
  }

  function IsSatisfied(w: World, c: Condition): Outcome {
    match c
    case Null => Throws(NullDereference)
    case Constant(_, state) => Holds(state)
    case Time(_, _, _, _, _) => Holds(w.clock(c))
    case Device(_, _, _, _, _, _, _) => DeviceNow(w, c)
    case Compare(_, l, r, op) =>
      if l.Null? && r.Null? then Holds(false)
      else if (l.Null? || r.Null?) && op != Or && op != Nor then Holds(false)
      else
        match op
        case And => AndAlso(IsSatisfied(w, l), IsSatisfied(w, r))
        case Or =>
          if l.Null? then IsSatisfied(w, r)
          else if r.Null? then IsSatisfied(w, l)
          else OrElse(IsSatisfied(w, l), IsSatisfied(w, r))
        case Nand => Not(AndAlso(IsSatisfied(w, l), IsSatisfied(w, r)))
        case Nor =>
          if l.Null? then Not(IsSatisfied(w, r))
          else if r.Null? then Not(IsSatisfied(w, l))
          else Not(OrElse(IsSatisfied(w, l), IsSatisfied(w, r)))
        case Equal => SameAs(IsSatisfied(w, l), IsSatisfied(w, r))
        case NotEqual => Not(SameAs(IsSatisfied(w, l), IsSatisfied(w, r)))
  }

  predicate ShouldExecuteOn(c: Condition, e: Event)
    requires !c.Null?
  {
    match c
    case Device(_, _, _, _, _, _, _) => e.PropertyChange?
    case Compare(_, l, r, _) => (!l.Null? && ShouldExecuteOn(l, e)) || (!r.Null? && ShouldExecuteOn(r, e))
    case _ => true
  }

  // c->ShouldExecuteOn(e.GetType()) ? c->IsSatisfiedAfterEvent(e) : c->IsSatisfied()
  function Guarded(w: World, e: Event, c: Condition): Outcome
    decreases c, 1
  {
    if c.Null? then Throws(NullDereference)
    else if ShouldExecuteOn(c, e) then AfterEvent(w, e, c)
    else IsSatisfied(w, c)
  }

  /** IsSatisfiedAfterEvent. In the first branch for Or the source asks the right child whether it reacts to the
      event, and goes on to the branch for two children when it does not. */
  function AfterEvent(w: World, e: Event, c: Condition): Outcome
    decreases c, 0
  {
    match c
    case Null => Throws(NullDereference)
    case Constant(_, _) => IsSatisfied(w, c)
    case Time(_, _, _, _, _) => IsSatisfied(w, c)
    case Device(_, _, dev, prop, _, _, _) =>
      if !e.PropertyChange? then Throws(WrongEventType)
      else if e.changed.id == dev && e.property == prop then CheckProperty(e.changed, c)
      else Holds(false)
    case Compare(_, l, r, op) =>
      if l.Null? && r.Null? then Holds(false)
      else if (l.Null? || r.Null?) && op != Or && op != Nor then Holds(false)
      else
        match op
        case And => AndAlso(Guarded(w, e, l), Guarded(w, e, r))
        case Or =>
          if l.Null? && ShouldExecuteOn(r, e) then Guarded(w, e, r)
          else if r.Null? then Guarded(w, e, l)
          else OrElse(Guarded(w, e, l), Guarded(w, e, r))
        case Nand => Not(AndAlso(Guarded(w, e, l), Guarded(w, e, r)))
        case Nor =>
          if l.Null? then Not(Guarded(w, e, r))
          else if r.Null? then Not(Guarded(w, e, l))
          else Not(OrElse(Guarded(w, e, l), Guarded(w, e, r)))
        case Equal => SameAs(Guarded(w, e, l), Guarded(w, e, r))
        case NotEqual => Not(SameAs(Guarded(w, e, l), Guarded(w, e, r)))
  }

  // ---------- what a tree means ----------

  // The truth table of an operator over the children that are there
  function Combine(op: CompareOp, args: seq<Outcome>): Outcome
    requires |args| <= 2
  {
    if |args| == 0 then Holds(false)
    else if |args| == 1 then
      if op == Or then args[0] else if op == Nor then Not(args[0]) else Holds(false)
    else if args[0].Throws? then args[0]
    else if (args[0].b && (op == Or || op == Nor)) || (!args[0].b && (op == And || op == Nand)) then
      Holds(op == Or || op == Nand) // the second child is not looked at
    else if args[1].Throws? then args[1]
    else
      var both := args[0].b && args[1].b;
      var any := args[0].b || args[1].b;
      Holds(match op
            case And => both case Or => any case Nand => !both
            case Nor => !any case Equal => both || !any case NotEqual => any && !both)
  }

  /** The value of a tree under a valuation of its leaves: no events, no guards, no null pointers. */
  ghost function Meaning(c: Condition, leaf: Condition -> Outcome): Outcome
    requires !c.Null?
  {
    if c.Compare? then
      Combine(c.op, (if c.left.Null? then [] else [Meaning(c.left, leaf)])
                    + if c.right.Null? then [] else [Meaning(c.right, leaf)])
    else leaf(c)
  }

  function ValueNow(w: World, c: Condition): Outcome {
    if c.Constant? then Holds(c.state) else if c.Device? then DeviceNow(w, c) else Holds(w.clock(c))
  }

  // After an event about a property, a device condition holds only if it is about that property
  function ValueAfter(w: World, e: Event, c: Condition): Outcome {
    if c.Device? && e.PropertyChange? then
      if e.changed.id == c.deviceId && e.property == c.property then CheckProperty(e.changed, c) else Holds(false)
    else ValueNow(w, c)
  }

  function LeafNow(w: World): Condition -> Outcome {
    (c: Condition) => ValueNow(w, c)
  }

  function LeafAfter(w: World, e: Event): Condition -> Outcome {
    (c: Condition) => ValueAfter(w, e, c)
  }

  lemma {:induction false} IsSatisfiedMeaning(w: World, c: Condition)
    requires !c.Null?
    ensures IsSatisfied(w, c) == Meaning(c, LeafNow(w))
  {
    if !c.Compare? {
    } else {
      if !c.left.Null? {
        IsSatisfiedMeaning(w, c.left);
      }
      if !c.right.Null? {
        IsSatisfiedMeaning(w, c.right);
      }
    }
  }

  // A tree that does not react to an event has no leaf the event changes
  lemma {:induction false} UnaffectedMeaning(w: World, e: Event, c: Condition)
    requires !c.Null? && (!ShouldExecuteOn(c, e) || !e.PropertyChange?)
    ensures Meaning(c, LeafAfter(w, e)) == Meaning(c, LeafNow(w))
  {
    if !c.Compare? {
    } else {
      if !c.left.Null? {
        UnaffectedMeaning(w, e, c.left);
      }
      if !c.right.Null? {
        UnaffectedMeaning(w, e, c.right);
      }
    }
  }

  // The only calls of IsSatisfiedAfterEvent that are not safe
  predicate Unsafe(c: Condition, e: Event)
    requires !c.Null?
  {
    !ShouldExecuteOn(c, e) && (c.Device? || (c.Compare? && c.op == Or && c.left.Null? && !c.right.Null?))
  }

  /** Called on any tree for any event, IsSatisfiedAfterEvent returns what the tree means after the event, except
      for a device condition asked about another kind of event and for an Or with only a right child that does
      not react. */
  lemma {:induction false} AfterEventMeaning(w: World, e: Event, c: Condition)
    requires !c.Null? && !Unsafe(c, e)
    ensures AfterEvent(w, e, c) == Meaning(c, LeafAfter(w, e))
    decreases c, 0
  {
    if !c.Compare? {
    } else {
      if !c.left.Null? {
        GuardedMeaning(w, e, c.left);
      }
      if !c.right.Null? {
        GuardedMeaning(w, e, c.right);
      }
    }
  }

  lemma {:induction false} GuardedMeaning(w: World, e: Event, c: Condition)
    requires !c.Null?
    ensures Guarded(w, e, c) == Meaning(c, LeafAfter(w, e))
    decreases c, 1
  {
    if ShouldExecuteOn(c, e) {
      AfterEventMeaning(w, e, c);
    } else {
      IsSatisfiedMeaning(w, c);
      UnaffectedMeaning(w, e, c);
    }
  }

  lemma {:induction false} MeaningFaults(c: Condition, leaf: Condition -> Outcome)
    requires !c.Null? && forall d: Condition :: leaf(d).Throws? ==> leaf(d).fault == MissingValue
    ensures Meaning(c, leaf).Throws? ==> Meaning(c, leaf).fault == MissingValue
  {
    if !c.Compare? {
    } else {
      if !c.left.Null? {
        MeaningFaults(c.left, leaf);
      }
      if !c.right.Null? {
        MeaningFaults(c.right, leaf);
      }
    }
  }

  // After an event only a missing value makes the meaning of a tree an exception
  lemma {:induction false} AfterEventFaults(w: World, e: Event, c: Condition)
    requires !c.Null?
    ensures var m := Meaning(c, LeafAfter(w, e)); m.Throws? ==> m.fault == MissingValue
  {
    forall d: Condition | LeafAfter(w, e)(d).Throws?
      ensures LeafAfter(w, e)(d).fault == MissingValue
    {
    }
    MeaningFaults(c, LeafAfter(w, e));
  }

  /** A null pointer is followed or the wrong-type error thrown exactly in those two cases. */
  lemma AfterEventSafety(w: World, e: Event, c: Condition)
    requires !c.Null?
    ensures AfterEvent(w, e, c) in {Throws(NullDereference), Throws(WrongEventType)} <==> Unsafe(c, e)
  {
    if !Unsafe(c, e) {
      AfterEventMeaning(w, e, c);
      AfterEventFaults(w, e, c);
    }
  }

  /** The guarded call of CheckRules: safe on every tree, with children missing anywhere, and equal to what the
      tree means after the event; for every event but a property change that is plain IsSatisfied. */
  lemma GuardedCall(w: World, e: Event, c: Condition)
    requires !c.Null? && ShouldExecuteOn(c, e)
    ensures AfterEvent(w, e, c) == Meaning(c, LeafAfter(w, e))
    ensures AfterEvent(w, e, c).Throws? ==> AfterEvent(w, e, c).fault == MissingValue
    ensures !e.PropertyChange? ==> AfterEvent(w, e, c) == IsSatisfied(w, c)
  {
    AfterEventMeaning(w, e, c);
    AfterEventFaults(w, e, c);
    if !e.PropertyChange? {
      UnaffectedMeaning(w, e, c);
      IsSatisfiedMeaning(w, c);
    }
  }

  /** Without the guard: an Or whose only child is a device condition on its right, asked about a time event. */
  lemma UnguardedCallFollowsNull(w: World, d: Condition)
    requires d.Device?
    ensures AfterEvent(w, OtherEvent(0), Compare(1, Null, d, Or)) == Throws(NullDereference)
  {
  }

  // ---------- device conditions ----------

  // The device of the condition can be asked, and its property has the value `v`
  predicate Shows(w: World, c: Condition, v: Value)
    requires c.Device?
  {
    && c.bound && c.property != "" && c.deviceId in w.devices
    && c.property in w.devices[c.deviceId].metadata && c.property in w.devices[c.deviceId].values
    && w.devices[c.deviceId].values[c.property] == v
  }

  predicate IsTrue(w: World, c: Condition) {
    IsSatisfied(w, c) == Holds(true)
  }

  /** Greater holds above val1: it starts right after val1 and, once it holds, holds for all greater values. */
  lemma GreaterLaw(w: World, c: Condition, n: Int32, w': World, m: Int32)
    requires c.Device? && c.deviceOp == DeviceGreater && Shows(w, c, IntValue(n)) && Shows(w', c, IntValue(m))
    ensures IsSatisfied(w, c).Holds?
    ensures n == c.val1 ==> !IsTrue(w, c)
    ensures n == c.val1 + 1 ==> IsTrue(w, c)
    ensures n <= m && IsTrue(w, c) ==> IsTrue(w', c)
  {
  }

  /** Less holds below val1. */
  lemma LessLaw(w: World, c: Condition, n: Int32, w': World, m: Int32)
    requires c.Device? && c.deviceOp == DeviceLess && Shows(w, c, IntValue(n)) && Shows(w', c, IntValue(m))
    ensures IsSatisfied(w, c).Holds?
    ensures n == c.val1 ==> !IsTrue(w, c)
    ensures n == c.val1 - 1 ==> IsTrue(w, c)
    ensures m <= n && IsTrue(w, c) ==> IsTrue(w', c)
  {
  }

  /** Equals holds exactly at a distance of at most val2 from val1, and not equals exactly where equals does not. */
  lemma EqualsLaw(w: World, c: Condition, n: Int32)
    requires c.Device? && c.deviceOp in {DeviceEquals, DeviceNotEquals} && Shows(w, c, IntValue(n))
    ensures var distance := if n < c.val1 then c.val1 - n else n - c.val1;
      IsSatisfied(w, c) == Holds((distance <= c.val2) == c.deviceOp.DeviceEquals?)
  {
  }

  /** In range holds from val1 to val2, both included; with val1 greater than val2 it holds outside the gap between
      them. */
  lemma InRangeLaw(w: World, c: Condition, n: Int32)
    requires c.Device? && c.deviceOp == DeviceInRange && Shows(w, c, IntValue(n))
    ensures c.val1 <= c.val2 ==> (IsTrue(w, c) <==> c.val1 <= n && n <= c.val2)
    ensures c.val1 > c.val2 ==> (IsTrue(w, c) <==> !(c.val2 < n && n < c.val1))
    ensures IsSatisfied(w, c).Holds?
  {
  }

  // The number nearest to `r` that is not further from zero
  predicate Truncated(r: real, n: int) {
    if r >= 0.0 then n as real <= r < n as real + 1.0 else n as real - 1.0 < r <= n as real
  }

  /** Values of other kinds: a boolean counts as 0 or 1, a fraction is cut off, a number out of range wraps around,
      and what is no number never satisfies the condition. */
  lemma OtherValues(w: World, c: Condition, v: Value, w': World, n: Int32)
    requires c.Device? && Shows(w, c, v) && Shows(w', c, IntValue(n))
    ensures v.BoolValue? && n == (if v.b then 1 else 0) ==> IsSatisfied(w, c) == IsSatisfied(w', c)
    ensures v.FloatValue? && Truncated(v.r, n) ==> IsSatisfied(w, c) == IsSatisfied(w', c)
    ensures v.IntValue? && (v.n - n) % 0x1_0000_0000 == 0 ==> IsSatisfied(w, c) == IsSatisfied(w', c)
    ensures v.NullValue? || v.StringValue? ==> IsSatisfied(w, c) == Holds(false)
  {
    if v.FloatValue? && Truncated(v.r, n) {
      TruncatedIs(v.r, n);
    }
    if v.IntValue? && (v.n - n) % 0x1_0000_0000 == 0 {
      WrapsAround(v.n, n);
    }
  }

  lemma TruncatedIs(r: real, n: Int32)
    requires Truncated(r, n)
    ensures ToInt(FloatValue(r)) == Some(n)
  {
    assert (if r < 0.0 then -((-r).Floor) else r.Floor) == n;
  }

  lemma WrapsAround(x: int, n: Int32)
    requires (x - n) % 0x1_0000_0000 == 0
    ensures ToInt32(x) == n
  {
  }

  /** Without a registry, a property or a device the condition is not satisfied, and neither is it without metadata;
      metadata without a value is the only exception. */
  lemma NothingToAsk(w: World, c: Condition)
    requires c.Device?
    ensures !c.bound || c.property == "" || c.deviceId !in w.devices ==> IsSatisfied(w, c) == Holds(false)
    ensures c.bound && c.property != "" && c.deviceId in w.devices ==>
      var d := w.devices[c.deviceId];
      && (c.property !in d.metadata ==> IsSatisfied(w, c) == Holds(false))
      && (c.property in d.metadata && c.property !in d.values ==> IsSatisfied(w, c) == Throws(MissingValue))
  {
  }

  /** After an event about a property, a device condition about it is what IsSatisfied says of the device in the event,
      whether it has a registry or not, and every other device condition does not hold. */
  lemma AfterPropertyChange(w: World, e: Event, c: Condition)
    requires c.Device? && e.PropertyChange?
    ensures e.changed.id == c.deviceId && e.property == c.property != "" ==>
      AfterEvent(w, e, c) == IsSatisfied(w.(devices := w.devices[c.deviceId := e.changed]), c.(bound := true))
    ensures e.changed.id != c.deviceId || e.property != c.property ==> AfterEvent(w, e, c) == Holds(false)
  {
  }

  ghost function Leaves(c: Condition): set<Condition> {
    if c.Null? then {} else if c.Compare? then Leaves(c.left) + Leaves(c.right) else {c}
  }

  predicate LeafReacts(l: Condition, e: Event) {
    e.PropertyChange? || !l.Device?
  }

  /** A tree reacts to a change of a property if it has a leaf, and to another event if it has one that is no device
      condition. */
  lemma {:induction false} ReactsExactly(c: Condition, e: Event)
    requires !c.Null?
    ensures ShouldExecuteOn(c, e) <==> exists l :: l in Leaves(c) && LeafReacts(l, e)
    decreases c
  {
    if !c.Compare? {
      assert Leaves(c) == {c};
      assert c in Leaves(c) && (ShouldExecuteOn(c, e) <==> LeafReacts(c, e));
    } else {
      assert Leaves(c) == Leaves(c.left) + Leaves(c.right);
      ChildReacts(c, c.left, e);
      ChildReacts(c, c.right, e);
      if l :| l in Leaves(c) && LeafReacts(l, e) {
        var child := if l in Leaves(c.left) then c.left else c.right;
        assert l in Leaves(child) && !child.Null?;
        assert ShouldExecuteOn(child, e);
      }
    }
  }

  lemma {:induction false} ChildReacts(c: Condition, child: Condition, e: Event)
    requires c.Compare? && (child == c.left || child == c.right)
    ensures !child.Null? ==> (ShouldExecuteOn(child, e) <==> exists l :: l in Leaves(child) && LeafReacts(l, e))
    ensures !child.Null? && ShouldExecuteOn(child, e) ==> exists l :: l in Leaves(c) && LeafReacts(l, e)
    decreases c, 0
  {
    if !child.Null? {
      ReactsExactly(child, e);
      if ShouldExecuteOn(child, e) {
        var l :| l in Leaves(child) && LeafReacts(l, e);
        assert l in Leaves(c);
      }
    }
  }

  // ---------- CheckRules ----------

  datatype CheckedRule = CheckedRule(id: nat, enabled: bool, condition: Condition, effect: Action)

  // What a check and an effect meet: effects run between two checks
  datatype Setting = Setting(world: World, store: Store, fails: SubActionData -> bool)

  // How CheckRules ends: with its result, or with an exception of a condition or of an effect
  datatype Ending = Returned(handled: bool) | CheckThrew(fault: Fault) | EffectThrew

  // The rule fires for the event
  ghost predicate Fires(w: World, e: Event, r: CheckedRule) {
    && !r.condition.Null? && r.enabled && ShouldExecuteOn(r.condition, e)
    && Meaning(r.condition, LeafAfter(w, e)) == Holds(true)
  }

  // Checking the rule throws
  ghost predicate Fails(w: World, e: Event, r: CheckedRule) {
    && !r.condition.Null? && r.enabled && ShouldExecuteOn(r.condition, e)
    && Meaning(r.condition, LeafAfter(w, e)) == Throws(MissingValue)
  }

  /** A rule fires, or throws, exactly if it has a condition, is enabled, reacts to the event through some leaf, and
      IsSatisfiedAfterEvent is true of its condition, or throws. */
  lemma FiresExactly(w: World, e: Event, r: CheckedRule)
    ensures r.condition.Null? || !r.enabled ==> !Fires(w, e, r) && !Fails(w, e, r)
    ensures !r.condition.Null? && r.enabled ==>
      var reacts := exists l :: l in Leaves(r.condition) && LeafReacts(l, e);
      && (Fires(w, e, r) <==> reacts && AfterEvent(w, e, r.condition) == Holds(true))
      && (Fails(w, e, r) <==> reacts && AfterEvent(w, e, r.condition).Throws?)
  {
    if !r.condition.Null? {
      ReactsExactly(r.condition, e);
      if ShouldExecuteOn(r.condition, e) {
        GuardedCall(w, e, r.condition);
      }
    }
  }

  // What executing the effect of the rule amounts to
  function EffectOf(s: Setting, r: CheckedRule): Trace {
    ExecuteAction(s.store, s.fails, r.effect.subs, 0, 0)
  }

  /** If the limit is not in the way, that is the whole action, from now on. */
  lemma EffectIsWhole(s: Setting, r: CheckedRule)
    requires ChainWithin(s.store, r.effect.subs, 11)
    ensures EffectOf(s, r) == Unlimited(s.store, s.fails, r.effect.subs, 0, 11)
  {
    LimitIsInvisible(s.store, s.fails, r.effect);
  }

  // The rule fires and its effect throws
  ghost predicate Breaks(s: Setting, e: Event, r: CheckedRule) {
    Fires(s.world, e, r) && EffectOf(s, r).thrown
  }

  // The loop does not get past the rule
  ghost predicate Stops(s: Setting, e: Event, r: CheckedRule) {
    Fails(s.world, e, r) || Breaks(s, e, r)
  }

  // The loop gets past the first `n` rules
  ghost predicate Passes(settings: seq<Setting>, e: Event, rules: seq<CheckedRule>, n: nat)
    requires n <= |settings| == |rules|
  {
    forall i :: 0 <= i < n ==> !Stops(settings[i], e, rules[i])
  }

  lemma PassesNext(settings: seq<Setting>, e: Event, rules: seq<CheckedRule>, n: nat)
    requires n < |settings| == |rules| && Passes(settings, e, rules, n) && !Stops(settings[n], e, rules[n])
    ensures Passes(settings, e, rules, n + 1)
  {
  }

  // The ids of the rules that fire, each with what its effect did
  ghost function Fired(settings: seq<Setting>, e: Event, rules: seq<CheckedRule>): seq<(nat, Trace)>
    requires |settings| == |rules|
  {
    if rules == [] then []
    else
      var s, r := settings[|rules| - 1], rules[|rules| - 1];
      Fired(settings[..|rules| - 1], e, rules[..|rules| - 1])
      + if Fires(s.world, e, r) then [(r.id, EffectOf(s, r))] else []
  }

  lemma FiredNext(settings: seq<Setting>, e: Event, rules: seq<CheckedRule>, n: nat)
    requires |settings| == |rules| && n < |rules|
    ensures Fired(settings[..n + 1], e, rules[..n + 1])
         == Fired(settings[..n], e, rules[..n])
            + if Fires(settings[n].world, e, rules[n]) then [(rules[n].id, EffectOf(settings[n], rules[n]))] else []
  {
    assert rules[..n + 1][..n] == rules[..n] && settings[..n + 1][..n] == settings[..n];
  }

  // The condition of the if statement in the loop, an exception of which is never that of a null pointer or a wrong
  // event type
  method Check(w: World, e: Event, r: CheckedRule) returns (outcome: Outcome)
    ensures outcome == Holds(true) <==> Fires(w, e, r)
    ensures outcome.Throws? <==> Fails(w, e, r)
    ensures outcome.Throws? ==> outcome.fault == MissingValue
  {
    if !r.condition.Null? && r.enabled && ShouldExecuteOn(r.condition, e) {
      GuardedCall(w, e, r.condition);
      return AfterEvent(w, e, r.condition);
    }
    return Holds(false);
  }

  /** The loop of CheckRules; rule `i` meets `settings[i]`. Exactly the rules that mean true fire, in order, up to and
      including the first whose check throws, never because of a null pointer or a wrong event type, or whose effect
      throws after it fired. Nothing in the loop catches either exception: it goes to the event system and the later
      rules are not checked. */
  method CheckRules(settings: seq<Setting>, e: Event, rules: seq<CheckedRule>)
    returns (fired: seq<(nat, Trace)>, checked: nat, ending: Ending)
    requires |settings| == |rules|
    ensures checked <= |rules| && Passes(settings, e, rules, checked)
    ensures checked < |rules| ==> Stops(settings[checked], e, rules[checked])
    ensures fired == if checked < |rules| then Fired(settings[..checked + 1], e, rules[..checked + 1])
                     else Fired(settings, e, rules)
    ensures ending ==
      if checked == |rules| then Returned(fired != [])
      else if Breaks(settings[checked], e, rules[checked]) then EffectThrew
      else CheckThrew(MissingValue)
  {
    fired := [];
    var handled := false;
    checked := 0;
    while checked < |rules|
      invariant checked <= |rules| && Passes(settings, e, rules, checked)
      invariant fired == Fired(settings[..checked], e, rules[..checked]) && (handled <==> fired != [])
    {
      var s, r := settings[checked], rules[checked];
      FiredNext(settings, e, rules, checked);
      var outcome := Check(s.world, e, r);
      if outcome.Throws? {
        return fired, checked, CheckThrew(outcome.fault);
      }
      if outcome.b {
        handled := true;
        var trace := EffectOf(s, r);
        fired := fired + [(r.id, trace)];
        if trace.thrown {
          return fired, checked, EffectThrew;
        }
      }
      PassesNext(settings, e, rules, checked);
      checked := checked + 1;
    }
    assert rules[..checked] == rules && settings[..checked] == settings;
    ending := Returned(handled);
  }
}
