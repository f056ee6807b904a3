/** Actions and their sub actions (backend/api/Action.h, backend/api/SubActionImpls.h). */
module Actions {

  // The scalars of nlohmann::json that a device property can hold
  datatype Value = NullValue | BoolValue(b: bool) | IntValue(n: int) | FloatValue(r: real) | StringValue(s: string)

  // The four registered sub action classes with their own fields
  datatype SubActionData =
    | DeviceSet(deviceId: int, property: string, value: Value)
    | DeviceToggle(deviceId: int, property: string)
    | Notification(category: int, message: string)
    | Recursive(actionId: nat)

  // `timeout` in milliseconds
  datatype SubAction = SubAction(data: SubActionData, timeout: nat, transition: bool)

  datatype ActionHead = ActionHead(name: string, icon: string, color: nat, visible: bool)

  datatype Action = Action(id: nat, head: ActionHead, subs: seq<SubAction>)

  // Action()
  const DEFAULT_ACTION: Action := Action(0, ActionHead("", "", 0, false), [])
}
