/** The condition trees of backend/api/Rule.h. */
module Conditions {

  // RuleCompareCondition::Operator
  datatype CompareOp = And | Or | Nand | Nor | Equal | NotEqual

  // RuleTimeCondition::Operator and RuleTimeCondition::Type
  datatype TimeOp = TimeEquals | TimeNotEquals | TimeGreater | TimeLess | TimeInRange
  datatype TimeType = HourMinSec | Hour | DayWeek | DayMonth | DayYear | Month | Year | Absolute

  // RuleDeviceCondition::Operator
  datatype DeviceOp = DeviceEquals | DeviceNotEquals | DeviceGreater | DeviceLess | DeviceInRange

  const TWO31: int := 0x8000_0000
  const TWO63: int := 0x8000_0000_0000_0000
  const TWO64: int := 0x1_0000_0000_0000_0000

  type Int32 = x: int | -TWO31 <= x < TWO31
  type Int64 = x: int | -TWO63 <= x < TWO63
  type Uint64 = x: int | 0 <= x < TWO64

  /** A std::unique_ptr<RuleCondition>: a null pointer or one of the four registered classes. An id of 0 means
      "not assigned yet". `bound` tells whether a device condition has a device registry. */
  datatype Condition =
    | Null
    | Constant(id: nat, state: bool)
    | Compare(id: nat, left: Condition, right: Condition, op: CompareOp)
    | Time(id: nat, time1: Int64, time2: Int64, timeOp: TimeOp, timeType: TimeType)
    | Device(id: nat, bound: bool, deviceId: Int64, property: string, val1: Int32, val2: Int32, deviceOp: DeviceOp)
  {
    // m_type: the index the class is registered under
    function Type(): nat
      requires !Null?
    {
      match this
      case Constant(_, _) => 0
      case Compare(_, _, _, _) => 1
      case Time(_, _, _, _, _) => 2
      case Device(_, _, _, _, _, _, _) => 3
    }

    // SetId
    function WithId(newId: nat): Condition {
      match this
      case Null => Null
      case Constant(_, state) => Constant(newId, state)
      case Compare(_, l, r, o) => Compare(newId, l, r, o)
      case Time(_, t1, t2, o, tt) => Time(newId, t1, t2, o, tt)
      case Device(_, b, d, p, v1, v2, o) => Device(newId, b, d, p, v1, v2, o)
    }

    ghost function Height(): nat {
      match this
      case Null => 0
      case Compare(_, l, r, _) => 1 + if l.Height() < r.Height() then r.Height() else l.Height()
      case _ => 1
    }

    // All ids in the tree, zeros included
    ghost function Ids(): set<nat> {
      match this
      case Null => {}
      case Compare(i, l, r, _) => {i} + l.Ids() + r.Ids()
      case _ => {id}
    }

    ghost function PresetIds(): set<nat> {
      Ids() - {0}
    }

    // No two nodes carry the same id, unassigned ones aside
    ghost predicate Distinct() {
      match this
      case Compare(i, l, r, _) =>
        && i !in l.PresetIds() && i !in r.PresetIds() && l.PresetIds() !! r.PresetIds()
        && l.Distinct() && r.Distinct()
      case _ => true
    }

    ghost predicate AllZero() {
      Ids() <= {0}
    }

    ghost predicate AllPreset() {
      0 !in Ids()
    }

    predicate HasDevice() {
      match this
      case Compare(_, l, r, _) => l.HasDevice() || r.HasDevice()
      case Device(_, _, _, _, _, _, _) => true
      case _ => false
    }
  }

  // `filled` is `c` with ids filled in where `c` had none
  ghost predicate FillsIds(c: Condition, filled: Condition) {
    match c
    case Null => filled.Null?
    case Compare(i, l, r, o) =>
      && filled.Compare? && filled.op == o && (i != 0 ==> filled.id == i)
      && FillsIds(l, filled.left) && FillsIds(r, filled.right)
    case _ => !filled.Null? && (c.id != 0 ==> filled.id == c.id) && filled == c.WithId(filled.id)
  }

  lemma {:induction false} FillsIdsHasDevice(c: Condition, filled: Condition)
    requires FillsIds(c, filled)
    ensures c.HasDevice() <==> filled.HasDevice()
  {
    if !c.Compare? {
    } else {
      FillsIdsHasDevice(c.left, filled.left);
      FillsIdsHasDevice(c.right, filled.right);
    }
  }

  lemma {:induction false} FillsIdsPreset(c: Condition, filled: Condition)
    requires FillsIds(c, filled) && c.AllPreset()
    ensures filled == c
  {
    if !c.Compare? {
    } else {
      FillsIdsPreset(c.left, filled.left);
      FillsIdsPreset(c.right, filled.right);
    }
  }
}
