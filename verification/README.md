# Home++: a verified model of the rule engine

This project models the parts of Home++, a home automation server, that are hard to get right: its rule engine with
persistence and evaluation, and the algorithms and shared state around it. It states what that code is for and proves
it; `dafny verify dfyconfig.toml` checks everything.

Code that changes things step by step is modelled by classes and methods with loops: the serializers over the tables,
the condition objects, the event system, the device cache, the MQTT client, the compound iterator, the passes over
histories and lines. Each of them is proved against a function on plain values, and the properties are proved about
those functions.

| module | what it models |
|---|---|
| `Conditions`, `Actions` | condition trees and actions as values |
| `RowKeys` | keys of table rows: how they are handed out and listed |
| `ConditionCodec` | conditions as protobuf messages and as JSON |
| `ConditionTable` | table `rule_conditions`: inserting, reading and removing trees |
| `Tables`, `RuleStore` | the four tables behind rules, their foreign keys, and the operations on them |
| `RuleTheorems` | what saving, loading and removing rules amounts to: a map of rules |
| `ConditionNodes`, `Serializers` | the same operations as they run, on objects and a shared database |
| `Evaluation` | evaluating conditions, with and without an event, and checking rules |
| `Calendar` | the civil calendar and the local time zone behind `localtime` and `mktime` |
| `Schedule` | when time conditions are looked at next |
| `RdpRecursion`, `RdpPoints` | Ramer-Douglas-Peucker reduction, on indices and on points |
| `History` | compression of the history of a property |
| `HexStrings`, `ColorConvert` | hexadecimal colours, and hue and saturation |
| `EventSystem` | event dispatch with handlers that call back |
| `ActionExecution` | executing actions that call each other |
| `DeviceCache` | the cache of devices that handles share |
| `MqttClient` | subscriptions and pending answers of the MQTT client |
| `ActiveQueue` | the actor with its own thread, as a state machine over all interleavings |
| `CompoundRange` | iterating over several ranges as one |

An SQL table is a finite map from keys to rows (`sub_actions` a sequence in key order); `ON DELETE CASCADE` and
`ON DELETE SET NULL` are written out. A row inserted without a key gets the greatest key plus one, as SQLite does it.
Exceptions are results. A null pointer to a condition is the constructor `Null`. Protobuf messages and JSON values are
datatypes. A calendar and a time zone are values whose `Valid` says what is used of them; the Gregorian calendar
(`Calendar.GregorianIsValid`, with `Calendar.YearStartIs` and `Calendar.MonthLengths`) and every fixed offset from UTC
(`Calendar.FixedZoneIsValid`) are valid. Clocks, replies of the broker, the answers of handlers and what a device looks
like are parameters.

## What turned out to be different from what one would expect

- A device condition is written to the database and to messages without its data (`backend/api/Rule.cpp:1068` unpacks
  where it should pack), so it can never be read back. Every round trip through those two codecs holds if and only if
  the tree has no device condition; the JSON codec does carry it.
- A rule whose left child is replaced by a new condition can be refused: the id SQLite hands out to the new child can be
  the one the right child still has (`ConditionTable.EditedLeftChildCollides`). `RuleTheorems.SaveSucceedsExactly` gives
  the exact condition on the ids under which a rule is saved.
- Saving a loaded rule again leaves it unchanged if and only if no condition row occurs twice in it, its action column is
  not null and no other rule starts at one of its condition rows. Deletions
  and saves reach rules for which it changes something (`RuleTheorems.DeletedActionIsReplaced`, `RuleTheorems.RowTwice`).
- `IsSatisfiedAfterEvent` follows a null pointer or throws for the wrong event type in exactly two cases, and the guard
  of `CheckRules` excludes both.
- An effect that throws ends the check of the rules for that event: the later rules are not looked at.
- One rule with a device condition, or with a null condition column, keeps all rules from being loaded, and so from being
  checked.
- A condition for a day of the month waits for the wrong day when the month it looks at is too short, one for a day of the
  year when the leap days before it differ between this year and the next, and `less` on days of the year waits for the
  day before the next year. `Schedule.GetNextExecutionTime` gives the exact conditions.
- In the history, rows that are no numbers never overwrite an average, even at the same instant.
- A message that is sent to an `Active` object after its worker has looked at the queue for the last time is lost. It is
  the only way to lose one.
- Without a connection `Subscribe` registers a topic the broker does not know of.

## Model

| member | source | states |
|---|---|---|
| ConditionCodec.SerializeRoundTrip | backend/api/Rule.cpp:345-367 | a message with children embedded is read back as the same tree, ids included, exactly when no device condition is in it, and is refused otherwise |
| ConditionCodec.DeserializeExactly | backend/api/Rule.cpp:1204-1209 | a message is read as a tree if and only if it is the message of that tree with its children embedded, and the tree has no device condition; everything else is refused |
| ConditionCodec.JsonRoundTrip | backend/api/Rule.cpp:181-206 | parsing what ToJson wrote gives the same tree for all four classes, up to the pointer to the device registry |
| RowKeys.FreshId | backend/database/RulesTable.h:211-213 | the key of a row inserted without one is positive and greater than every key in the table |
| RowKeys.FreshKey | backend/database/RulesTable.h:211-213 | the loop finds the key SQLite chooses |
| RowKeys.Listed | backend/database/DBRuleSerialize.cpp:57-61 | a scan lists every key of the table once, in ascending order |
| ConditionTable.InsertStores | backend/database/DBRuleSerialize.cpp:285-312 | a successful insert gives each node its own non-zero id that no earlier row has, keeps preset ids and all earlier rows, adds one row a node, and these rows hold the tree |
| ConditionTable.InsertThenRemove | backend/database/DBRuleSerialize.cpp:323-359 | removing a tree after inserting it restores the table exactly |
| ConditionTable.InsertPreset | backend/database/DBRuleSerialize.cpp:298-304 | a tree that brings all ids is stored as it is exactly when no id occurs twice or is taken; the only error is the unique constraint |
| ConditionTable.InsertExactly | backend/database/DBRuleSerialize.cpp:285-312 | with any mix of preset and missing ids the insert succeeds if and only if no preset id is taken, occurs twice or is the one SQLite hands out before it; computed from the ids and the greatest key alone |
| ConditionTable.EditedLeftChildCollides | backend/database/DBRuleSerialize.cpp:84-93 | a concrete edit of a stored rule for which deleting and inserting its condition violates the primary key |
| ConditionTable.ReadStored | backend/database/DBRuleSerialize.cpp:237-260 | a tree whose rows are in the table is read back as it is, ids included, exactly when no device condition is in it |
| ConditionTable.ReadIsStored | backend/api/Rule.cpp:139-179 | a read that succeeds returns a tree whose rows are all in the table |
| ConditionTable.InsertLoadRoundTrip | backend/database/DBRuleSerialize.cpp:237-314 | a tree without ids is always stored, with fresh distinct ids and no earlier row changed, and loading its root gives that tree |
| ConditionTable.InsertAcyclic | backend/database/DBRuleSerialize.cpp:269-314 | inserting any tree keeps the stored references free of cycles |
| ConditionTable.AcyclicLoads | backend/database/DBRuleSerialize.cpp:237-260 | on such a table the recursion of GetRuleCondition ends for every id |
| Tables.AppendEffect | backend/database/DBActionSerialize.cpp:111-131 | the rows appended for an action are its sub actions in order, no other action's change, and deleting by owner takes away exactly them |
| Tables.WithoutOthers | backend/database/ActionsTable.h:225-227 | the cascade removes all sub actions of one action and none of another |
| RuleStore.AddRuleConsistent | backend/database/DBRuleSerialize.cpp:72-98 | saving any rule keeps every foreign key resolved and the conditions acyclic, and never fails on a foreign key |
| RuleStore.StepConsistent | backend/database/DBRuleSerialize.cpp:72-213 | so does every request about rules and actions, also one that throws |
| RuleStore.ActionHeaderOnly | backend/database/DBActionSerialize.cpp:141-179 | saving the header of an action writes one row, under its id or the next free one, and changes nothing else, so its sub actions stay |
| RuleStore.RuleHeaderOnly | backend/database/DBRuleSerialize.cpp:113-153 | saving the header of a rule writes one row if both its keys resolve, and changes nothing else |
| RuleStore.ActionSaved | backend/database/DBActionSerialize.cpp:99-133 | a saved action is read back with its new sub actions and no old ones; every other action, the rules and the conditions stay |
| RuleStore.ActionDropped | backend/database/DBActionSerialize.cpp:188-193 | after a deletion that action is gone, every other is as it was, and exactly the columns that named it are null |
| RuleStore.EveryRunLoads | backend/database/DBRuleSerialize.cpp:72-213 | over every run of requests with any ids, foreign keys resolve and loading any rule ends |
| RuleTheorems.SaveSucceedsExactly | backend/database/DBRuleSerialize.cpp:72-98 | a rule is saved if and only if it has a condition whose ids fit beside the rows that stay; otherwise one of two named errors |
| RuleTheorems.SavePreset | backend/database/DBRuleSerialize.cpp:84-98 | a condition with all ids assigned is saved if and only if none occurs twice, and keeps its ids |
| RuleTheorems.SaveThenLoad | backend/database/DBRuleSerialize.cpp:26-46 | a new rule is always saved and is loaded back equal, with its new ids, exactly when it has no device condition |
| RuleTheorems.SaveThenRemove | backend/database/DBRuleSerialize.cpp:162-192 | saving a new rule and removing it by id is the identity on all four tables; in between every foreign key resolves |
| RuleTheorems.ResaveLoaded | backend/database/DBRuleSerialize.cpp:72-153 | the exact condition under which saving a loaded rule changes nothing but sub action keys; all loads then give what they gave before |
| RuleTheorems.DeletedActionIsReplaced | backend/database/DBRuleSerialize.cpp:89-91 | any stored rule whose action is deleted still loads, and saving it as loaded gives it a new action |
| RuleTheorems.RowTwice | backend/database/DBRuleSerialize.cpp:84-93 | two saves after which a rule has a condition row twice, loads, and cannot be saved as loaded |
| RuleTheorems.RepresentedLoads | backend/database/DBRuleSerialize.cpp:26-46 | tables that stand for a map of rules load exactly the rules of the map by id |
| RuleStore.GetRulesExactly | backend/database/DBRuleSerialize.cpp:194-213 | a query for several rules succeeds if and only if each can be loaded, lists them in its order, and otherwise throws what the first of the others throws |
| RuleTheorems.AllRulesLoad | backend/database/DBRuleSerialize.cpp:54-63 | GetAllRules lists exactly the rules of the map, in the order of their ids |
| RuleTheorems.AllRulesOrNone | backend/database/DBRuleSerialize.cpp:54-63 | GetAllRules succeeds if and only if GetRule does for every rule, and throws as soon as one condition column is null |
| RuleTheorems.DeviceRuleBlocksAll | backend/database/DBRuleSerialize.cpp:54-63 | after a new rule with a device condition was saved, GetAllRules throws |
| RuleTheorems.SaveUpdates | backend/database/DBRuleSerialize.cpp:72-111 | saving a new or edited rule that uses no ids of other rules writes exactly one entry of the map, whatever is deleted, reinserted or set to null on the way |
| RuleTheorems.RemoveUpdates | backend/database/DBRuleSerialize.cpp:162-192 | removing a rule removes exactly its entry |
| RuleTheorems.RunRefinesMap | backend/database/DBRuleSerialize.cpp:65-213 | over every run of saves and removals, refused ones included, the four tables behave as a map of rules |
| ConditionNodes.ConditionNode.Clone | backend/api/Rule.cpp:369-400 | the copy is an equal tree, ids included, made of new objects only |
| ConditionNodes.DeserializeNode | backend/api/Rule.cpp:1204-1209 | objects are built for exactly the messages that can be read, and hold the tree read |
| Serializers.Database.DeleteCondition | backend/database/RulesTable.h:138-141 | deleting a condition row sets the column of every rule that pointed to it to null |
| Serializers.Database.DeleteActionRow | backend/database/ActionsTable.h:225-227 | deleting an action deletes its sub actions and sets the column of its rules to null |
| Serializers.Database.WriteRule | backend/database/DBRuleSerialize.cpp:119-153 | a rule row is written only if both its foreign keys name rows |
| Serializers.ConditionSerialize.InsertRec | backend/database/DBRuleSerialize.cpp:285-312 | the recursion over objects with SetId in place computes table and ids of the insert, or its error |
| Serializers.ConditionSerialize.InsertRuleCondition | backend/database/DBRuleSerialize.cpp:262-267 | in its own transaction, an error leaves the table as it was |
| Serializers.ConditionSerialize.RemoveRuleCondition | backend/database/DBRuleSerialize.cpp:323-359 | row by row, the recursion deletes the ids of the tree and no others, with all effects on rules |
| Serializers.ConditionSerialize.GetRuleCondition | backend/database/DBRuleSerialize.cpp:237-260 | the recursive read builds new objects for the tree that is stored, or throws where the read throws |
| Serializers.ActionSerialize.AddActionOnly | backend/database/DBActionSerialize.cpp:141-179 | inserts or updates one header row and returns its id |
| Serializers.ActionSerialize.AddAction | backend/database/DBActionSerialize.cpp:99-133 | replaces the sub actions of the action by the new list, in order |
| Serializers.ActionSerialize.GetActionsFromQuery | backend/database/DBActionSerialize.cpp:15-41 | the two loops give each selected action its own sub actions, in the order of their keys, and no others |
| Serializers.ActionSerialize.GetAction | backend/database/DBActionSerialize.cpp:58-75 | found exactly if its row is there, with its header and its sub actions in order |
| Serializers.ActionSerialize.RemoveAction | backend/database/DBActionSerialize.cpp:188-193 | the action goes with its sub actions |
| Serializers.RuleSerialize.AddRuleHeld | backend/database/DBRuleSerialize.cpp:72-98 | the statements on objects refine AddRule on values: tables, ids written back, error |
| Serializers.RuleSerialize.AddRuleCommitted | backend/database/DBRuleSerialize.cpp:65-70 | with its own transaction, an error leaves all tables as they were |
| Serializers.RuleSerialize.GetRulesFromQuery | backend/database/DBRuleSerialize.cpp:194-213 | the two loops build new objects for exactly the selected rules, or throw where loading them throws |
| Serializers.RuleSerialize.GetRule | backend/database/DBRuleSerialize.cpp:26-46 | loads a rule as new objects, with the value the tables hold |
| Serializers.RuleSerialize.GetAllRules | backend/database/DBRuleSerialize.cpp:54-63 | objects for all rules in the order of their ids, or none |
| Serializers.RuleSerialize.RemoveRule | backend/database/DBRuleSerialize.cpp:162-192 | removes row, conditions and action of the loaded rule; nothing changes if the load throws |
| Evaluation.IsSatisfiedMeaning | backend/api/Rule.cpp:266-328 | IsSatisfied is the truth table of the operators over the children that are there, with short circuits and exceptions |
| Evaluation.AfterEventMeaning | backend/api/Rule.cpp:402-467 | outside two cases IsSatisfiedAfterEvent equals that truth table under the values the leaves have after the event |
| Evaluation.AfterEventSafety | backend/api/Rule.cpp:1098-1123 | a null pointer is followed or the wrong-type error thrown if and only if one of those two cases is given |
| Evaluation.GuardedCall | backend/events/RuleEventHandler.cpp:191-193 | behind ShouldExecuteOn the call is safe on every tree and right, and for other events than property changes it is IsSatisfied |
| Evaluation.UnguardedCallFollowsNull | backend/api/Rule.cpp:419-433 | without the guard an Or with only a right child follows a null pointer |
| Evaluation.GreaterLaw | backend/api/Rule.cpp:1136-1138 | a device condition with greater is false at val1, true at val1 + 1 and upward closed |
| Evaluation.LessLaw | backend/api/Rule.cpp:1139-1141 | with less it is false at val1, true at val1 - 1 and downward closed |
| Evaluation.EqualsLaw | backend/api/Rule.cpp:1129-1135 | equals holds exactly at a distance of at most val2 from val1, and not equals exactly elsewhere |
| Evaluation.InRangeLaw | backend/api/Rule.cpp:1142-1152 | in range holds from val1 through val2, and for val1 above val2 exactly outside the open gap between them |
| Evaluation.OtherValues | backend/api/Rule.cpp:1034-1044 | booleans count as 0 or 1, fractions are cut off, integers wrap to 32 bits, and what is no number does not satisfy the condition |
| Evaluation.NothingToAsk | backend/api/Rule.cpp:1010-1027 | without registry, property, device or metadata the condition does not hold; metadata without a value is the only exception |
| Evaluation.AfterPropertyChange | backend/api/Rule.cpp:1098-1123 | after a change of its property the condition is what IsSatisfied says of the device in the event, registry or not, and after any other change it does not hold |
| Evaluation.ReactsExactly | backend/api/Rule.h:189-193 | a tree reacts to a property change if it has a leaf, and to any other event if it has one that is no device condition |
| Evaluation.Check | backend/events/RuleEventHandler.cpp:185-193 | the condition of a rule holds exactly if the rule fires, and throws only for a missing value |
| Evaluation.FiresExactly | backend/events/RuleEventHandler.cpp:185-193 | a rule fires exactly if it has a condition, is enabled, some leaf reacts to the event and IsSatisfiedAfterEvent is true; its check throws exactly if that call does |
| Evaluation.CheckRules | backend/events/RuleEventHandler.cpp:174-202 | exactly the enabled rules whose condition holds after the event fire, in order, each with the whole of its effect, up to and including the first whose check throws or whose effect throws; which of the two it was; handled if and only if one fired |
| Evaluation.EffectIsWhole | backend/events/RuleEventHandler.cpp:185-193 | the effect of a rule that fires is its whole action from then on, if no chain is longer than the limit |
| Schedule.NextTimeOfDay | backend/api/Rule.cpp:751-778 | the least instant not before now at which the local clock shows the time, under 24 hours away; for less, the next midnight |
| Schedule.NextHour | backend/api/Rule.cpp:779-800 | the same for a full hour |
| Schedule.NextWeekday | backend/api/Rule.cpp:801-825 | the least start of that weekday not before now, under seven days away; for less, the next start of a Sunday |
| Schedule.NextDayOfMonth | backend/api/Rule.cpp:826-851 | the least start of a day with that number not before now if and only if the month that is looked at has such a day; for less, the next start of a month |
| Schedule.NextDayOfYear | backend/api/Rule.cpp:852-877 | the least start of a day with that number not before now if and only if this year has it and, if it is over, the leap days before it are the same a year later; for less, one day before the next year, which is over exactly during that day |
| Schedule.NextMonthStart | backend/api/Rule.cpp:878-903 | the least start of that month not before now; for less, the next start of a year |
| Schedule.NextYearStart | backend/api/Rule.cpp:904-923 | the start of that year, zero exactly when it is over or for less |
| Schedule.GetNextExecutionTime | backend/api/Rule.cpp:742-943 | for all eight types: what the condition waits for, if and only if the date that is looked at has the named day; for less the start of the next period strictly after now, one day early for days of the year, and never for years and absolute times |
| Schedule.MonthTooShort | backend/api/Rule.cpp:826-844 | at the start of every month without that day the condition of dayMonth fails |
| Schedule.LeapYearFollows | backend/api/Rule.cpp:852-867 | before every leap year the condition of dayYear fails for each day from March on that is just over |
| Schedule.IsConditionTimeBased | backend/events/RuleEventHandler.cpp:3-21 | true if and only if a time condition is in the tree |
| Schedule.NextExecutionTime | backend/events/RuleEventHandler.cpp:23-51 | the earliest non-zero time of all time conditions in the tree, zero exactly when there is none |
| Schedule.EarliestIsUnique | backend/events/RuleEventHandler.cpp:23-51 | that determines the result |
| RdpRecursion.KeptIsSubsequence | backend/utility/RDPAlgorithm.h:45-86 | what is kept is a subsequence, for any distance |
| RdpRecursion.KeptEnds | backend/utility/RDPAlgorithm.h:45-86 | the first and the last point are kept |
| RdpRecursion.KeptOfFarthest | backend/utility/RDPAlgorithm.h:56-85 | with the first farthest inner point within epsilon only the ends are kept; beyond it, what is kept up to it and from it on, joined at it |
| RdpRecursion.DroppedWithin | backend/utility/RDPAlgorithm.h:45-86 | every dropped point is within epsilon of the line through the kept points around it |
| RdpRecursion.KeptMonotone | backend/utility/RDPAlgorithm.h:56-85 | a larger epsilon keeps a subset |
| RdpRecursion.KeptIsRobust | backend/utility/RDPAlgorithm.h:56-85 | any subsequence that still has the kept points reduces to the same result |
| RdpPoints.DistanceIsLeast | backend/utility/RDPAlgorithm.h:9-21 | distancePointToLine is the least distance to any point of the line, and it is attained |
| RdpPoints.FarthestPoint | backend/utility/RDPAlgorithm.h:60-69 | the loop finds the first inner point farthest from the line |
| RdpPoints.Rdp | backend/utility/RDPAlgorithm.h:45-86 | the algorithm returns the points at the indices the recursion keeps |
| RdpPoints.RdpHalves | backend/utility/RDPAlgorithm.h:70-80 | the two recursive calls with pop_back and insert give what is kept of a range that splits |
| RdpPoints.ReducedWithin | backend/utility/RDPAlgorithm.h:45-86 | both ends are kept and every dropped point is within epsilon, as a distance in the plane |
| RdpPoints.ReducedMonotone | backend/utility/RDPAlgorithm.h:45-86 | a larger epsilon keeps a subset of the points |
| RdpPoints.ReducedIdempotent | backend/utility/RDPAlgorithm.h:45-86 | reducing a reduced line changes nothing |
| History.AverageAndSetValue | backend/database/DBDeviceSerialize.cpp:227-243 | writes the rounded mean value at the mean time of the collected samples, and nothing else |
| History.HandleGetPropertyHistory | backend/database/DBDeviceSerialize.cpp:245-295 | the loop over rows computes the pass the results below are about |
| History.HistoryOf | backend/database/DBDeviceSerialize.cpp:245-295 | buckets partition the numeric rows in order, span at most the compression, have increasing mean times, and the result holds exactly their averages and, elsewhere, the last other row |
| History.BucketCount | backend/database/DBDeviceSerialize.cpp:245-295 | there are at most (last - first) / (compression + 1) + 1 buckets |
| History.MeanTimesAscend | backend/database/DBDeviceSerialize.cpp:227-236 | mean times increase strictly, so no average overwrites another |
| History.AverageIsClose | backend/database/DBDeviceSerialize.cpp:227-243 | a stored average is within 0.005 of a mean between the least and the greatest value of its bucket |
| History.SumLaws | backend/database/DBDeviceSerialize.cpp:231-235 | the sums of one sample are its own, those of two buckets put together add up |
| History.MeanLaws | backend/database/DBDeviceSerialize.cpp:236-238 | the mean of one sample is its value, and buckets put together weigh by their sizes |
| History.MeanTimeIs | backend/database/DBDeviceSerialize.cpp:236-237 | the mean time is the mean rounded down to a whole second |
| History.EntryOfBucket | backend/database/DBDeviceSerialize.cpp:227-295 | the result holds, for every bucket, at the whole second of its mean time, the hundredths nearest to its mean |
| HexStrings.HexRoundTrip | frontend/src/app/color-convert.module.ts:50-58 | a padded hexadecimal number is parsed as itself |
| HexStrings.ColorRoundTrip | frontend/src/app/color-convert.module.ts:3-9 | every colour number survives the string |
| HexStrings.LowerCase | frontend/src/app/color-convert.module.ts:3-5 | numbers are written with lower case digits and no leading zero |
| HexStrings.ThreeBytes | frontend/src/app/color-convert.module.ts:50-58 | three channels written with two digits each are the six digits of the number they make up |
| HexStrings.ColorString | frontend/src/app/color-convert.module.ts:3-5 | a colour number below 2^24 is written as # and six digits |
| HexStrings.ParseStops | frontend/src/app/color-convert.module.ts:7-9 | parseInt reads the digits a string starts with, in upper or lower case, ignores the rest, and without a digit there is no number |
| ColorConvert.ChannelsBySector | frontend/src/app/color-convert.module.ts:11-49 | in each of the six sectors one channel is 255, one low and one between, in the order of the sector |
| ColorConvert.PositionError | frontend/src/app/color-convert.module.ts:47-49 | the position within a sector read back from rounded channels is off by at most 1 / (255 * s) |
| ColorConvert.HueRoundTrip | frontend/src/app/color-convert.module.ts:11-78 | the hue comes back within 60 / (255 * s) degrees on the circle, the value is 1 and the saturation is rounded up |
| ColorConvert.AnyColour | frontend/src/app/color-convert.module.ts:55-78 | for all channels: 255 times the value is the greatest, the saturation is the spread times 255 out of the greatest rounded down and 0 for black, the hue follows from the greatest channel and the difference of the others and is 0 for every grey |
| ColorConvert.WhiteRoundTrip | frontend/src/app/color-convert.module.ts:11-78 | without saturation the colour is white and reads back as hue and saturation 0 |
| EventSystem.EventSystem.AddHandler | backend/events/EventSystem.cpp:9-23 | adds at once or, during a dispatch, defers and leaves the handlers alone |
| EventSystem.EventSystem.RemoveHandler | backend/events/EventSystem.cpp:25-49 | removes the first occurrence at once or, during a dispatch, defers |
| EventSystem.EventSystem.RunHandlers | backend/events/EventSystem.cpp:63-88 | whatever the handlers call, nested dispatches included, the list that is iterated does not change and all their requests are deferred in order; called are the handlers in order up to and including the first that consumes the event without throwing, or all |
| EventSystem.EventSystem.HandleEvent | backend/events/EventSystem.cpp:51-120 | nested it only defers; at the outermost level it ends with one first occurrence removed for each removal, then the additions in order, and nothing deferred; with the handlers that are called |
| EventSystem.EventSystem.CarryOut | backend/events/EventSystem.cpp:100-119 | carries out the two deferred lists and empties them |
| EventSystem.RemoveEachCount | backend/events/EventSystem.cpp:102-113 | every handler stays registered as often as it was, less its removals, as far as that goes |
| EventSystem.AskedAndGone | backend/events/EventSystem.cpp:102-119 | a handler registered once that asked for removal, and was not added again, is gone after the dispatch |
| EventSystem.DispatchLogIs | backend/events/EventSystem.cpp:63-88 | the requests of a dispatch are those of the handlers up to the first that consumes the event without throwing, in their order, each by its calls and then by its answer |
| EventSystem.OnlyVisitedMatter | backend/events/EventSystem.cpp:77-81 | how handlers after the first that consumes the event would react changes nothing |
| EventSystem.AskedExactly | backend/events/EventSystem.cpp:66-88 | a removal is asked for exactly by the calls of a visited handler, or by the answer of the visited handler itself if it did not throw |
| EventSystem.CallsLaws | backend/events/EventSystem.cpp:9-49 | a nested dispatch asks for what its handlers ask for, a null pointer for nothing, and calls one after the other for theirs in order |
| EventSystem.EventEmitter.AddHandler | backend/events/EventSystem.h:159-165 | appends the handler unless it is null |
| EventSystem.EventEmitter.EmitEvent | backend/events/EventSystem.h:167-191 | erasing while iterating leaves exactly the handlers that did not ask to go or were not reached |
| EventSystem.LeftIs | backend/events/EventSystem.h:167-191 | of the handlers up to the first that consumes the event those stay that do not ask to go, and all after it stay, in their order |
| ActionExecution.ExecutionIsBounded | backend/api/Action.cpp:13-25 | for any store, cycles included, at most b + ... + b^11 sub action executions, all effects within 11 minutes |
| ActionExecution.LimitIsInvisible | backend/api/Action.cpp:13-25 | if no chain passes more than 11 actions, effects, order, times and exceptions are those without a limit |
| ActionExecution.CutIffLongChain | backend/api/Action.cpp:16-20 | when nothing throws, the limit cuts an execution short if and only if a chain is longer than that |
| ActionExecution.PlainSub | backend/api/SubActionImpls.h:127-152 | a sub action that calls no other takes effect exactly once, after its timeout or a minute, unless it throws; then the exception goes to the caller without a timeout and ends the process with one |
| ActionExecution.CallingSub | backend/api/SubActionImpls.cpp:345-350 | one that calls an action executes it as a whole, one level deeper, after its timeout or a minute; an absent action is an exception |
| ActionExecution.InOrder | backend/api/Action.cpp:22-25 | sub actions take effect in their order until one throws; below the last level none does |
| ActionExecution.EffectHasPath | backend/api/Action.cpp:13-25 | every effect, whatever throws, lies at the end of a path of calls within the limit, and its delay is the sum of the timeouts on the path, each cut to a minute |
| ActionExecution.PathTakesEffect | backend/api/Action.cpp:13-25 | when nothing throws, the end of every such path takes effect, at that time |
| ActionExecution.Runner.Execute | backend/api/Action.cpp:13-25 | the loop with its side effects does what the trace semantics says |
| ActionExecution.Runner.ExecuteOne | backend/api/SubActionImpls.h:127-152 | immediate or delayed, with the delay cut to one minute and exceptions kept in the thread |
| ActionExecution.Runner.Internal | backend/api/SubActionImpls.cpp:345-350 | a recursive sub action executes the stored action one level deeper, or throws if there is none |
| DeviceCache.DeviceStorage.AddDevice | backend/api/DeviceStorage.cpp:10-16 | a new record under a new key; the cache stays invisible |
| DeviceCache.DeviceStorage.GetDevice | backend/api/DeviceStorage.cpp:45-63 | found exactly if the serializer has it, with its data, and the same object all handles to it share |
| DeviceCache.DeviceStorage.EditAndChange | backend/api/DeviceStorage.cpp:29-43 | an edit through one handle is seen by all and by the serializer |
| DeviceCache.DeviceStorage.RemoveDevice | backend/api/DeviceStorage.cpp:18-27 | record, cache entry and handles of that device go, and no other entry or living object |
| DeviceCache.DeviceStorage.SetProperty | backend/api/Device.cpp:59-83 | succeeds exactly for a known property and a value its metadata entry and its type accept; then the shared data changes, the record exactly if the property is saved, the log exactly if it is logged; handles and record still agree |
| DeviceCache.Types.Accepts | backend/api/Device.cpp:8-31 | by the kind of the value: booleans, integers, fractions and strings go only into properties of their own or of a custom type, null only where it is optional, without type or custom, and the device type may refuse more |
| DeviceCache.DeviceStorage.CleanupCache | backend/api/DeviceStorage.cpp:160-173 | erasing while iterating removes exactly the expired entries |
| MqttClient.Client.Subscribe | backend/communication/MQTTClient.cpp:45-69 | topics stay unique and are those of the subscriptions; the broker is asked exactly for new topics; only a refusal changes nothing; client and broker agree afterwards unless the connection was missing |
| MqttClient.Client.CallbackDone | backend/communication/MQTTClient.cpp:155-171 | the erase always finds its topic, the topic goes with its last subscription, and broker and client agree as before |
| MqttClient.Client.OnSubscribe | backend/communication/MQTTClient.cpp:176-186 | the first request with that id gets its answer; every promise is set at most once |
| MqttClient.Client.Serve | backend/communication/MQTTClient.cpp:45-186 | over every run of subscriptions, answers and removals with a connection throughout, client and broker go on agreeing about all topics |
| MqttClient.MissedSubscription | backend/communication/MQTTClient.cpp:52-60 | without a connection a first subscription leaves them in disagreement |
| ActiveQueue.FirstInFirstOut | backend/utility/Active.cpp:14-36 | in every interleaving executed, running and queued messages are the sent ones in order, and the worker sleeps only on an empty queue |
| ActiveQueue.OnlyLateMessagesRemain | backend/utility/Active.cpp:21-36 | when the worker leaves, exactly the messages sent after its last look at the queue remain |
| ActiveQueue.AllRunIffNoneLate | backend/utility/Active.cpp:5-36 | every sent message ran exactly once, in order, if and only if none was sent that late |
| ActiveQueue.NotLate | backend/utility/Active.cpp:5-12 | no message is late that is sent before the destructor's message or by a running message |
| ActiveQueue.JoinReturns | backend/utility/Active.cpp:5-12 | from every reachable state with the destructor's message sent the worker exits in a bounded number of steps |
| ActiveQueue.NothingRunsAfterLeaving | backend/utility/Active.cpp:21-36 | a late message is never executed |
| ActiveQueue.LateMessageIsLost | backend/utility/Active.cpp:21-36 | there is a run with a late message |
| CompoundRange.AheadOfReversed | backend/utility/SimpleRange.h:158-170 | the reversed stack holds the concatenation of the ranges |
| CompoundRange.CompoundIterator.FromRanges | backend/utility/SimpleRange.h:158-164 | copying and reversing in place gives the stack for the concatenation |
| CompoundRange.CompoundIterator.FromVector | backend/utility/SimpleRange.h:165-170 | reading the vector backwards gives the same stack |
| CompoundRange.CompoundIterator.PopEmpty | backend/utility/SimpleRange.h:171-178 | afterwards the stack is empty or has an element on top, and nothing to visit is lost |
| CompoundRange.CompoundIterator.Get | backend/utility/SimpleRange.h:179-179 | the first element still to be visited |
| CompoundRange.CompoundIterator.Increment | backend/utility/SimpleRange.h:181-186 | exactly one element is passed |
| CompoundRange.CompoundIterator.PostIncrement | backend/utility/SimpleRange.h:187-192 | the copy stays where the iterator was |
| CompoundRange.CompoundIterator.Equals | backend/utility/SimpleRange.h:193-197 | equal exactly if both are at the end |
| CompoundRange.Visit | backend/utility/SimpleRange.h:202-231 | the loop from begin to end visits the concatenation in order, empty ranges anywhere |

## Left out

- SQLite, protobuf, nlohmann::json, mosquitto, the C++ threads and the C library themselves: maps, datatypes and state machines stand for them.
- Integer widths of ids and row keys, and SQLite's random keys once the greatest key is 2^63 - 1; overflow of signed arithmetic on times and property values.
- JSON numbers written as floats or booleans where an integer is read, and JSON bases other than objects.
- The payload codecs of sub actions: a row holds the value.
- Evaluation.CheckRules: starts with the rules as loaded; RuleTheorems.AllRulesOrNone says when loading them throws. A delayed effect that throws ends the process in its own thread, which is only recorded.
- Permissions, user filters, logging, and the events that the storages emit after a change.
- Serializers.RuleSerialize.AddRuleCommitted: after an error the ids written into the rule objects are not rolled back, and the contract leaves them open.
- RuleTheorems.RunRefinesMap: covers clients that send no ids of another rule that can be loaded and no device conditions, which make loading throw; RuleStore.EveryRunLoads covers all others.
- RuleTimeCondition::IsSatisfied: the clock is a parameter. Its inRange branches are swapped and hourMinSec compares component by component, so there is nothing to claim about them.
- Schedule.GetNextExecutionTime: a time1 out of its range and daylight saving; a zone has days of 24 hours.
- RuleEventHandler::Run, the list of timed rules and HandleEvent of the rule events; the run loop reads the front of a list it may have emptied.
- Device conditions read from JSON have no registry, so they are not satisfied until one is set; who sets it is not part of the model.
- RdpPoints.Rdp: distances are exact and compared by their squares, so rounding is not part of the model; a negative epsilon, with which the recursion does not end on collinear points, is excluded; of isLessThanThree the version for random access is modelled.
- ColorConvert.HueRoundTrip: exact reals instead of floating point, and hues between 0 and 360 only.
- History.HistoryOf: instants stand for their ctime strings, and rows before 1970 are excluded.
- EventSystem.EventEmitter.EmitEvent: handlers that call back into the emitter; adding or erasing a handler there leaves the loop with an iterator that the language no longer defines.
- PostEventState is three booleans instead of bits.
- ActionExecution.Runner.Execute: the store does not change during an execution, delayed threads are taken in program order, and whether an effect throws is a parameter; the device properties that effects change are not part of it.
- DeviceCache.DeviceStorage.SetProperty: ValidateUpdate of a device type is any predicate, OnUpdate is left out, and so is the `actionWrite` right that DeviceSet checks before it.
- Handles to a device after RemoveDevice, edits through a handle without ChangeDevice, and the bodies of DBDeviceSerialize that write devices; the serializer is its table of records.
- MqttClient.Client.CallbackDone: which callbacks OnMessage calls and in which order; removal of any entry is covered.
- MQTTClient::Publish and OnPublish: the bookkeeping is that of Subscribe, but Publish sends before it takes the mutex, so an answer may come before its promise is listed.
- ActiveQueue.FirstInFirstOut: messages that throw, which end the process.
- Authenticator, CookieVerify, the websocket layer, the radio and SPI drivers, the plugins and the rest of the frontend.
