/** The JSON and protobuf codecs of conditions (backend/api/Rule.cpp, backend/api/rule_conditions.proto). */
module ConditionCodec {
  import opened Wrappers
  import opened Conditions

  // oneof left_oneof / right_oneof of messages::RuleCompareConditionData
  datatype Ref = NoRef | IdRef(refId: nat) | Embedded(msg: Message)

  // google::protobuf::Any; NoData is an Any that nothing was packed into
  datatype Data =
    | NoData
    | BoolData(value: bool)
    | CompareData(leftRef: Ref, rightRef: Ref, compare: int)
    | TimeData(time1: Uint64, time2: Uint64, timeCompare: int, timeKind: int)

  // messages::RuleCondition
  datatype Message = Message(id: nat, kind: nat, data: Data)

  // The object keys conditions use: "id", "type", "state", ...
  datatype Key =
    | IdKey | TypeKey | StateKey | LeftKey | RightKey | CompareKey | Time1Key | Time2Key | TimeTypeKey
    | Value1Key | Value2Key | DeviceIdKey | PropertyKey

  datatype Json =
    | JNull
    | JBool(b: bool)
    | JInt(n: int)
    | JString(s: string)
    | JObject(fields: map<Key, Json>)

  // ---------- enums as integers ----------

  function CompareOpToInt(op: CompareOp): int {
    match op
    case And => 0 case Or => 1 case Nand => 2 case Nor => 3 case Equal => 4 case NotEqual => 5
  }

  function CompareOpFromInt(n: int): Result<CompareOp> {
    if n > 5 || n < 0 then Err(OutOfRange)
    else Ok([And, Or, Nand, Nor, Equal, NotEqual][n])
  }

  function TimeOpToInt(op: TimeOp): int {
    match op
    case TimeEquals => 0 case TimeNotEquals => 1 case TimeGreater => 2 case TimeLess => 3 case TimeInRange => 4
  }

  function TimeOpFromInt(n: int): Result<TimeOp> {
    if n > 4 || n < 0 then Err(OutOfRange)
    else Ok([TimeEquals, TimeNotEquals, TimeGreater, TimeLess, TimeInRange][n])
  }

  function TimeTypeToInt(t: TimeType): int {
    match t
    case HourMinSec => 0 case Hour => 1 case DayWeek => 2 case DayMonth => 3
    case DayYear => 4 case Month => 5 case Year => 6 case Absolute => 7
  }

  function TimeTypeFromInt(n: int): Result<TimeType> {
    if n > 7 || n < 0 then Err(OutOfRange)
    else Ok([HourMinSec, Hour, DayWeek, DayMonth, DayYear, Month, Year, Absolute][n])
  }

  function DeviceOpToInt(op: DeviceOp): int {
    match op
    case DeviceEquals => 0 case DeviceNotEquals => 1 case DeviceGreater => 2
    case DeviceLess => 3 case DeviceInRange => 4
  }

  function DeviceOpFromInt(n: int): Result<DeviceOp> {
    if n > 4 || n < 0 then Err(OutOfRange)
    else Ok([DeviceEquals, DeviceNotEquals, DeviceGreater, DeviceLess, DeviceInRange][n])
  }

  // ---------- integer conversions of C++ ----------

  function ToUint64(x: int): (r: Uint64)
    ensures (r - x) % TWO64 == 0
  {
    x % TWO64
  }

  function ToInt64(x: int): (r: Int64)
    ensures -TWO63 <= x < TWO63 ==> r == x
    ensures (r - x) % TWO64 == 0
  {
    (x + TWO63) % TWO64 - TWO63
  }

  function ToInt32(x: int): (r: Int32)
    ensures -TWO31 <= x < TWO31 ==> r == x
    ensures (r - x) % (2 * TWO31) == 0
  {
    (x + TWO31) % (2 * TWO31) - TWO31
  }

  // ---------- protobuf ----------

  /** RuleCondition::Serialize. For a device condition the source calls UnpackTo where the other classes call
      PackFrom, so its data stays empty. */
  function Serialize(c: Condition, includeChildren: bool): Message
    requires !c.Null?
  {
    var data :=
      match c
      case Constant(_, state) => BoolData(state)
      case Compare(_, l, r, op) =>
        CompareData(
          if l.Null? then NoRef else if includeChildren then Embedded(Serialize(l, true)) else IdRef(l.id),
          if r.Null? then NoRef else if includeChildren then Embedded(Serialize(r, true)) else IdRef(r.id),
          CompareOpToInt(op))
      case Time(_, t1, t2, op, tt) => TimeData(ToUint64(t1), ToUint64(t2), TimeOpToInt(op), TimeTypeToInt(tt))
      case Device(_, _, _, _, _, _, _) => NoData;
    Message(c.id, c.Type(), data)
  }

  // The time fields of a row or message
  function TimeFromData(id: nat, d: Data): Result<Condition> {
    if !d.TimeData? then Err(InvalidArgument) else
    var op :- TimeOpFromInt(d.timeCompare);
    var tt :- TimeTypeFromInt(d.timeKind);
    Ok(Time(id, ToInt64(d.time1), ToInt64(d.time2), op, tt))
  }

  // Registry::DeserializeCondition and the Deserialize of each class
  function Deserialize(m: Message): Result<Condition>
    decreases m, 0
  {
    if m.kind == 0 then
      if m.data.BoolData? then Ok(Constant(m.id, m.data.value)) else Err(InvalidArgument)
    else if m.kind == 1 then
      if !m.data.CompareData? then Err(InvalidArgument) else
      var op :- CompareOpFromInt(m.data.compare);
      var l :- DeserializeChild(m.data.leftRef);
      var r :- DeserializeChild(m.data.rightRef);
      Ok(Compare(m.id, l, r, op))
    else if m.kind == 2 then TimeFromData(m.id, m.data)
    else if m.kind == 3 then Err(InvalidArgument) // nothing ever packs RuleDeviceConditionData
    else Err(OutOfRange)
  }

  function DeserializeChild(ref: Ref): Result<Condition>
    decreases ref, 1
  {
    match ref
    case NoRef => Ok(Null)
    case IdRef(_) => Err(InvalidArgument)
    case Embedded(m) => Deserialize(m)
  }

  /** A message with its children included is read back as the very same tree, ids too, exactly when no device
      condition is in it. */
  lemma {:induction false} SerializeRoundTrip(c: Condition)
    requires !c.Null?
    ensures Deserialize(Serialize(c, true)) == if c.HasDevice() then Err(InvalidArgument) else Ok(c)
  {
    if !c.Compare? {
    } else {
      if !c.left.Null? {
        SerializeRoundTrip(c.left);
      }
      if !c.right.Null? {
        SerializeRoundTrip(c.right);
      }
    }
  }

  /** And no other message is accepted: what is read back as a tree is that tree's message, whatever was sent. */
  lemma {:induction false} DeserializeExactly(m: Message, c: Condition)
    ensures Deserialize(m) == Ok(c) <==> !c.Null? && !c.HasDevice() && m == Serialize(c, true)
    decreases m, c
  {
    if !c.Null? && !c.HasDevice() && m == Serialize(c, true) {
      SerializeRoundTrip(c);
    }
    if Deserialize(m) == Ok(c) {
      if c.Compare? {
        AcceptedChild(m.data.leftRef, c.left);
        AcceptedChild(m.data.rightRef, c.right);
      }
    }
  }

  lemma {:induction false} AcceptedChild(ref: Ref, c: Condition)
    requires DeserializeChild(ref) == Ok(c)
    ensures !c.HasDevice() && ref == if c.Null? then NoRef else Embedded(Serialize(c, true))
    decreases ref, c
  {
    if ref.Embedded? {
      DeserializeExactly(ref.msg, c);
    }
  }

  // ---------- JSON ----------

  function ToJson(c: Condition): Json
    requires !c.Null?
  {
    var base := map[IdKey := JInt(c.id), TypeKey := JInt(c.Type())];
    match c
    case Constant(_, state) => JObject(base[StateKey := JBool(state)])
    case Compare(_, l, r, op) =>
      var withLeft := if l.Null? then base else base[LeftKey := ToJson(l)];
      var withRight := if r.Null? then withLeft else withLeft[RightKey := ToJson(r)];
      JObject(withRight[CompareKey := JInt(CompareOpToInt(op))])
    case Time(_, t1, t2, op, tt) =>
      JObject(base[Time1Key := JInt(t1)][Time2Key := JInt(t2)][CompareKey := JInt(TimeOpToInt(op))]
              [TimeTypeKey := JInt(TimeTypeToInt(tt))])
    case Device(_, _, dev, prop, v1, v2, op) =>
      JObject(base[Value1Key := JInt(v1)][Value2Key := JInt(v2)][CompareKey := JInt(DeviceOpToInt(op))]
              [DeviceIdKey := JInt(dev)][PropertyKey := JString(prop)])
  }

  function At(j: Json, key: Key): Result<Json> {
    if !j.JObject? then Err(TypeError)
    else if key !in j.fields then Err(MissingKey)
    else Ok(j.fields[key])
  }

  function IntAt(j: Json, key: Key): Result<int> {
    var v :- At(j, key);
    if v.JInt? then Ok(v.n) else Err(TypeError)
  }

  function NatAt(j: Json, key: Key): Result<nat> {
    var n :- IntAt(j, key);
    Ok(if n < 0 then ToUint64(n) else n)
  }

  // Registry::ParseCondition(json) with RuleCondition::Parse
  function Parse(j: Json): Result<Condition>
    decreases j, 2
  {
    var kind :- NatAt(j, TypeKey);
    if kind > 3 then Err(OutOfRange) else
    var id :- if j.JObject? && IdKey in j.fields then NatAt(j, IdKey) else Ok(0);
    if kind == 0 then ParseConstant(id, j)
    else if kind == 1 then ParseCompare(id, j)
    else if kind == 2 then ParseTime(id, j)
    else ParseDevice(id, j)
  }

  function ParseConstant(id: nat, j: Json): Result<Condition> {
    var state :- At(j, StateKey);
    if state.JBool? then Ok(Constant(id, state.b)) else Err(TypeError)
  }

  function ParseCompare(id: nat, j: Json): Result<Condition>
    decreases j, 1
  {
    var cmp :- IntAt(j, CompareKey);
    var op :- CompareOpFromInt(ToInt32(cmp));
    var l :- ParseChild(j, LeftKey);
    var r :- ParseChild(j, RightKey);
    Ok(Compare(id, l, r, op))
  }

  function ParseTime(id: nat, j: Json): Result<Condition> {
    var t1 :- IntAt(j, Time1Key);
    var t2 :- IntAt(j, Time2Key);
    var cmp :- IntAt(j, CompareKey);
    var op :- TimeOpFromInt(ToInt32(cmp));
    var k :- IntAt(j, TimeTypeKey);
    var tt :- TimeTypeFromInt(ToInt32(k));
    Ok(Time(id, ToInt64(t1), ToInt64(t2), op, tt))
  }

  function ParseDevice(id: nat, j: Json): Result<Condition> {
    var v1 :- IntAt(j, Value1Key);
    var v2 :- IntAt(j, Value2Key);
    var cmp :- IntAt(j, CompareKey);
    var op :- DeviceOpFromInt(ToInt32(cmp));
    var dev :- IntAt(j, DeviceIdKey);
    var prop :- At(j, PropertyKey);
    if prop.JString? then
      Ok(Device(id, false, ToInt64(ToUint64(dev)), prop.s, ToInt32(v1), ToInt32(v2), op))
    else Err(TypeError)
  }

  // A child key that is absent or not an object means a null pointer
  function ParseChild(j: Json, key: Key): Result<Condition>
    decreases j, 0
  {
    if j.JObject? && key in j.fields && j.fields[key].JObject? then Parse(j.fields[key]) else Ok(Null)
  }

  // The tree without the device registry pointers, which no codec carries
  function Unbound(c: Condition): Condition {
    match c
    case Compare(i, l, r, op) => Compare(i, Unbound(l), Unbound(r), op)
    case Device(_, _, _, _, _, _, _) => c.(bound := false)
    case _ => c
  }

  /** Reading back what ToJson wrote gives the tree with its ids and all its values. */
  lemma {:induction false} JsonRoundTrip(c: Condition)
    requires !c.Null?
    ensures Parse(ToJson(c)) == Ok(Unbound(c))
  {
    var j := ToJson(c);
    assert NatAt(j, TypeKey) == Ok(c.Type()) && NatAt(j, IdKey) == Ok(c.id);
    match c
    case Constant(_, _) =>
    case Compare(i, l, r, op) =>
      if !l.Null? {
        JsonRoundTrip(l);
      }
      if !r.Null? {
        JsonRoundTrip(r);
      }
      CompareJson(i, l, r, op);
    case Time(_, _, _, _, _) => TimeJson(c);
    case Device(_, _, _, _, _, _, _) => DeviceJson(c);
  }

  lemma CompareJson(i: nat, l: Condition, r: Condition, op: CompareOp)
    requires !l.Null? ==> Parse(ToJson(l)) == Ok(Unbound(l))
    requires !r.Null? ==> Parse(ToJson(r)) == Ok(Unbound(r))
    ensures ParseCompare(i, ToJson(Compare(i, l, r, op))) == Ok(Unbound(Compare(i, l, r, op)))
  {
    var j := ToJson(Compare(i, l, r, op));
    assert IntAt(j, CompareKey) == Ok(CompareOpToInt(op));
    assert CompareOpFromInt(CompareOpToInt(op)) == Ok(op);
    assert ParseChild(j, LeftKey) == Ok(Unbound(l));
    assert ParseChild(j, RightKey) == Ok(Unbound(r));
  }

  lemma TimeJson(c: Condition)
    requires c.Time?
    ensures ParseTime(c.id, ToJson(c)) == Ok(c)
  {
    var j := ToJson(c);
    assert IntAt(j, Time1Key) == Ok(c.time1);
    assert IntAt(j, Time2Key) == Ok(c.time2);
    assert IntAt(j, CompareKey) == Ok(TimeOpToInt(c.timeOp));
    assert IntAt(j, TimeTypeKey) == Ok(TimeTypeToInt(c.timeType));
    assert TimeOpFromInt(TimeOpToInt(c.timeOp)) == Ok(c.timeOp);
    assert TimeTypeFromInt(TimeTypeToInt(c.timeType)) == Ok(c.timeType);
  }

  lemma DeviceJson(c: Condition)
    requires c.Device?
    ensures ParseDevice(c.id, ToJson(c)) == Ok(Unbound(c))
  {
    var j := ToJson(c);
    assert IntAt(j, Value1Key) == Ok(c.val1) && IntAt(j, Value2Key) == Ok(c.val2);
  }
}
