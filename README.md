# Order storage engine of a food-fulfilment simulator

This project models the storage core of a kitchen order-fulfilment system.

- **Storage unit.** A named map from order id to stored order, with a capacity. A stored order is an order plus the instant it was placed.
- **Storage group.** An ordered list of units of one temperature class. Adds are first-fit. A remove takes the id from the first unit holding it. The group answers "full", lists its orders and finds its least fresh order.
- **Engine.** A cooler group, a heater group, a shelf group and an append-only action log. Its operations are:
  - placing an order: ideal group first, then the shelves, then making room by a move or a discard;
  - picking an order up: heater, then cooler, then shelves;
  - moving a shelf order into its ideal group;
  - discarding the least fresh shelf order;
  - one tick of the background reallocation loop.

Modules:

- `Config`: temperatures, action kinds and the storage configuration.
- `StorageUnits`: the unit as a class over a map.
- `StorageGroups`: the group as a class over a sequence of units, with a ghost `Units` view. It also holds the value-level functions `GroupAdd` and `GroupRemove` that specify the group's methods.
- `FulfilmentSpec`: the engine state as a value (`State`). It holds:
  - the value-level move (`MoveOrder`, `MoveState`), the two loops of the move attempt (`ShelvesFrom` over the shelf units, `TryListed` over a listing of the shelves), the reallocation loop (`TickStep`, `TickListed`) and pickup (`Pickup`);
  - predicates for what each engine operation does (`TriedMove`, `Discarded`, `Placed`, `Reallocated`);
  - the lemmas about them.
- `Fulfilment`: the engine as a class holding the three groups and the log. Its methods are proved against `FulfilmentSpec`:
  - where the source fixes the result, the new state is equal to a value-level function (`MoveState`, `ShelvesFrom`, `TryListed`, `TickStep`, `TickListed`, `Pickup`, `GroupAdd`, `GroupRemove`);
  - where the source leaves a choice to Go's map iteration order, the new state satisfies a relation: `TriedMove` and `Reallocated` (some listing of the shelves, unit by unit), `Discarded` (which of several equally fresh orders is the candidate) and `Placed`, which is built from these. For any one listing and candidate these fix the state.
- `Scenarios`: the source's three scenario tests, replayed on concrete orders, and small concrete situations that show which order a discard or a reallocation picks.

Instants and durations are integers in nanoseconds. Every engine call receives one instant `now`. The logged timestamp is `now / 1000` (microseconds).

## Where the model follows the code rather than the design description

- **A failed move still re-stamps the order.** `atomicMoveOrder` rewrites the shelf entry first: a hot or cold order gets freshness `InitialFreshness - 2 * elapsed` and placement instant `now`. Only then does it look for a destination. When no destination unit has room, the rewritten entry stays on the shelf.
  - `FailedMoveForgivesElapsedTime` and `FailedMoveRevivesExpiredOrder` show the consequence: each failed move forgives the double-rate decay already incurred.
  - The design says the order is left where it was.
- **Discard moves any order of the candidate's temperature.** Before discarding, the engine tries to move any shelf order with the candidate's temperature (`tryMoveFromShelfGroup`), not the candidate itself. Only when no such move succeeds is the candidate discarded.
- **Remaining freshness is halved for every hot or cold order, wherever it sits.** `RemainingFreshness` does not look at where the order is stored. `Duration / 2` truncates toward zero, which `HalfTrunc` models.
- **An order can be dropped.** After a discard, the shelf insert fails only when the shelves were full while holding no order: every shelf unit has capacity zero or less, or there are no shelf units. The order is then dropped silently. `PlacedIsStored` states exactly when this happens.
- **The move attempt in PlaceOrder cannot succeed.** The attempt at `logic/fulfilment.go:109` is made only after the ideal group refused the order. A full ideal group refuses every move (`FullIdealRefusesMove`), so the branch that retries the shelf after a successful move is dead. The model makes the call and proves its result false.
- **A group with zero units is full.** It therefore refuses every add.

## Model

| member | source | states |
|---|---|---|
| StorageUnits.Storage.constructor | entity/storage.go:33-39 | A new unit has the given name and capacity and holds no orders. |
| StorageUnits.Storage.GetOrder | entity/storage.go:42-45 | Finds an entry exactly when the id is stored. The entry returned is the one stored under that id and carries that id. |
| StorageUnits.Storage.Add | entity/storage.go:48-61 | Accepted exactly when the id is already present (an overwrite) or the unit is below capacity. On success only that entry is set; otherwise nothing changes. Occupancy grows by one only for a new id, and capacity is never exceeded. |
| StorageUnits.Storage.Remove | entity/storage.go:64-70 | Returns the stored entry exactly when the id is present and deletes that key only. An absent id leaves the unit unchanged. |
| StorageUnits.Storage.IsFull | entity/storage.go:80-84 | Full exactly when occupancy has reached capacity. A unit with capacity zero or less is always full. |
| StorageUnits.Storage.ListOrders | entity/storage.go:87-95 | The snapshot lists every stored entry exactly once and nothing else. |
| StorageGroups.RemainingFreshnessDecreases | entity/storage_group.go:69-75 | For a fixed stored order, remaining freshness strictly falls, by exactly the time that passes. |
| StorageGroups.NonRoomDecayIsDoubled | entity/storage_group.go:69-75 | Measured against nominal freshness, a hot or cold order decays at twice the elapsed time, up to the rounding of the halving. |
| StorageGroups.GroupAdd | entity/storage_group.go:16-33 | Succeeds exactly when some unit is not full. The order lands in the first such unit; every other unit and every other entry stays as it was. A failure changes nothing. Capacities and well-formedness are kept. |
| StorageGroups.GroupRemove | entity/storage_group.go:36-45 | Finds the id exactly when some unit holds it. It is removed from the first unit holding it, and the entry stored there is returned; nothing else changes. |
| StorageGroups.EmptyGroupRefusesAdd | entity/storage_group.go:87-97 | A group with no units counts as full and refuses every add. |
| StorageGroups.FlattenSize | entity/storage_group.go:77-85 | Concatenating the per-unit listings gives one element per order held by the group. |
| StorageGroups.StorageGroup.Add | entity/storage_group.go:16-33 | The in-place add has exactly the effect of `GroupAdd` on the group's units. |
| StorageGroups.StorageGroup.Remove | entity/storage_group.go:36-45 | The in-place remove has exactly the effect of `GroupRemove`. |
| StorageGroups.StorageGroup.IsFull | entity/storage_group.go:87-97 | Full exactly when every unit is full, which includes a group without units. |
| StorageGroups.ListedEntries | entity/storage_group.go:77-85 | Concatenating one listing per unit, in unit order, gives every stored entry and only stored entries. |
| StorageGroups.ListedIdsDistinct | entity/storage_group.go:77-85 | When no id is held by two units, that concatenation lists no id twice. |
| StorageGroups.StorageGroup.ListOrders | entity/storage_group.go:77-85 | The result concatenates, in unit order, one listing per unit. Its length is the group's total occupancy. It contains every stored entry and only stored entries. |
| StorageGroups.StorageGroup.GetLeastFreshOrder | entity/storage_group.go:47-66 | Returns none exactly when the group holds no order. Otherwise it returns a stored entry whose remaining freshness is at most that of every stored entry. |
| StorageGroups.StorageGroup.FirstWithRoom | logic/fulfilment.go:251-254 | Returns the index of the first unit that is not full, or the number of units when all are full. |
| Fulfilment.FulfillmentSystem.constructor | logic/fulfilment.go:36-65 | Each group has the configured number of empty units of the configured capacity; a non-positive count gives none. The units are named `Cooler-1`, `Heater-1`, `Shelf-1`, and so on. The log is empty. |
| Fulfilment.FulfillmentSystem.LogAction | logic/fulfilment.go:68-78 | Appends exactly one action, stamped with `now` in microseconds, and leaves storage unchanged. |
| FulfilmentSpec.Rebased | logic/fulfilment.go:236-249 | A hot or cold order gets freshness initial freshness minus twice the elapsed time, and is placed anew at `now`. A room order is untouched. Id, temperature and initial freshness are always kept. |
| FulfilmentSpec.MoveOrder | logic/fulfilment.go:225-267 | The order moves exactly when the source holds it, it has not expired and the destination group is not full. On success it leaves the source, and its re-stamped entry goes to the first destination unit with room; the other destination units are unchanged. On failure the destination is unchanged and the source keeps its ids, whose entries are at most re-stamped. |
| FulfilmentSpec.MoveIsRemoveThenAdd | logic/fulfilment.go:251-266 | A successful move is a removal from the source followed by a first-fit `GroupAdd` of the re-stamped order. |
| FulfilmentSpec.MoveKeepsWellFormed | logic/fulfilment.go:225-267 | No move, successful or not, puts a unit over capacity or files an order under another id. |
| FulfilmentSpec.FullIdealRefusesMove | logic/fulfilment.go:107-115 | No move into a full ideal group succeeds, so the move attempt made while placing an order whose ideal group refused it always fails. |
| FulfilmentSpec.FailedMoveRewritesOnly | logic/fulfilment.go:236-249 | A failed move changes neither ideal group nor the log. On the shelves it only re-stamps entries. |
| FulfilmentSpec.FailedMoveWithRoomChangesNothing | logic/fulfilment.go:228-245 | If the destination has room and the move fails, nothing changes, and any copy of the order in that unit has expired. |
| FulfilmentSpec.FailedMoveForgivesElapsedTime | logic/fulfilment.go:236-249 | A re-stamp at `t1` raises the ideal freshness seen at any later `t2` by twice the time the order had spent on the shelf. |
| FulfilmentSpec.FailedMoveRevivesExpiredOrder | logic/fulfilment.go:236-249 | Concrete case: a hot order that would have expired by instant 5 is still movable at 5 after a failed move at 3. |
| FulfilmentSpec.MoveKeepsRemainingFreshness | logic/fulfilment.go:236-249 | At the instant of its first move, an order keeps the remaining freshness it had on the shelf. |
| FulfilmentSpec.MoveShrinksShelf | logic/fulfilment.go:280-295 | A successful move only removes a shelf entry and keeps every full ideal group full. Under unique ids it leaves no copy of the moved id on the shelves. |
| FulfilmentSpec.MoveKeepsUniqueIds | logic/fulfilment.go:251-266 | If no id was held by two units before a move, none is after it. |
| FulfilmentSpec.MovesAreLogged | logic/fulfilment.go:280-295 | Along a sequence of moves, the log grows by exactly one move action per move, in order, and by nothing else. |
| FulfilmentSpec.RebasedSettles | logic/fulfilment.go:236-249 | Re-stamping a hot or cold order twice at the same instant restores its initial freshness, and a third re-stamp changes nothing. So the entries a failed attempt leaves are the original, or re-stamped once or twice. |
| FulfilmentSpec.FullIdealTriesInVain | logic/fulfilment.go:107-115 | A move attempt into a full ideal group reports no move, whatever order and unit it names. |
| FulfilmentSpec.ShelvesFromOnly | logic/fulfilment.go:213-218 | Into a full ideal group, trying every shelf unit for an id held by at most one unit never moves it, and re-stamps only that unit's entry, once, if it has not expired. |
| FulfilmentSpec.TryListedFull | logic/fulfilment.go:210-222 | Into a full ideal group, with ids held by one unit each and listed once, the attempt over a listing moves nothing and re-stamps exactly the listed entries of the temperature that have not expired, once each. |
| FulfilmentSpec.FailedTryRestampsShelf | logic/fulfilment.go:200-223 | Into a full ideal group, with ids held by one unit each, the attempt moves nothing and its new state is the shelves with every unexpired entry of the temperature re-stamped once, whatever listing order Go used. |
| FulfilmentSpec.PlacedDiscardsLeastFresh | logic/fulfilment.go:107-124 | Placing a hot or cold order with its ideal group and the shelves full: the discard starts from the shelves with every unexpired entry of that temperature re-stamped, a candidate exists exactly when the shelves hold an order, and it is a least fresh order of those re-stamped shelves. |
| FulfilmentSpec.DiscardFreesRoom | logic/fulfilment.go:185-198 | On well-formed shelves, a discard that found a candidate leaves room on the shelves, whether it moved an order out or discarded the candidate. |
| FulfilmentSpec.PlacedIsStored | logic/fulfilment.go:81-139 | An order is placed exactly when its ideal group has room, or the shelves have room, or the shelves hold some order that can make way. A placed order is stored unchanged, stamped with `now`, in its ideal group or on the shelves, and a place action for it ends the log. An order not placed changes nothing. |
| FulfilmentSpec.TickComplete | logic/fulfilment.go:276-295 | After the loop has handled every order listed at its start, no hot (cold) order left on the shelves could still move while the heaters (coolers) have room. |
| FulfilmentSpec.Pickup | logic/fulfilment.go:142-159 | Finds the id exactly when some group holds it. If the heater group holds it, the new heater group is `GroupRemove` of the id from it; else, if the cooler group holds it, the new cooler group is; else the new shelves are. The other two groups are untouched, and exactly one pickup action is appended. An absent id changes nothing. |
| FulfilmentSpec.PickupRemovesEveryCopy | logic/fulfilment.go:142-159 | Under unique ids, no copy of the id remains anywhere after a pickup. |
| FulfilmentSpec.PickupTwiceIsNoop | logic/fulfilment.go:142-159 | Under unique ids, a second pickup of the same id finds nothing, changes nothing and logs nothing. |
| FulfilmentSpec.PickupKeepsUniqueIds | logic/fulfilment.go:142-159 | A pickup keeps ids unique across all units. |
| Fulfilment.FulfillmentSystem.RestampOnShelf | logic/fulfilment.go:228-249 | Succeeds exactly when the shelf unit holds the id and the order has not expired. It then rewrites that entry as `Rebased` describes; otherwise nothing changes. |
| Fulfilment.FulfillmentSystem.MoveIntoGroup | logic/fulfilment.go:251-266 | Moves exactly when the ideal group is not full: the id is deleted from the shelf unit and stored in the first ideal unit with room. Otherwise nothing changes. |
| Fulfilment.FulfillmentSystem.AtomicMoveOrder | logic/fulfilment.go:225-267 | The in-place move has exactly the outcome and effect of `MoveState`, the re-stamp of a failed move included. |
| Fulfilment.FulfillmentSystem.MoveFromShelves | logic/fulfilment.go:213-218 | The outcome and new state are exactly `ShelvesFrom` from the first shelf unit: each unit is tried in order with `MoveState`, each failed try keeps its re-stamp, and the first success is logged as a move. Hence a success is one logged move out of some shelf unit, a failure only re-stamps shelf entries, and with room in the ideal group a failure changes nothing and every shelf copy of the id has expired. |
| Fulfilment.FulfillmentSystem.TryListedOrders | logic/fulfilment.go:210-222 | For a listing of the shelves, the outcome and new state are exactly `TryListed`: each listed order of the temperature is tried with `ShelvesFrom`, in listing order, up to the first success. A success moves an id the shelves held with that temperature; with room in the ideal group a failure changes nothing, and every listed id of that temperature has expired everywhere. |
| Fulfilment.FulfillmentSystem.TryMoveFromShelfGroup | logic/fulfilment.go:200-223 | `TriedMove`: room temperature moves nothing. Otherwise the outcome and new state are exactly `TryListed` over the concatenation of one listing per shelf unit, in unit order. A success is one logged move of an order the shelves held with that temperature. A failure only re-stamps shelf entries; when the ideal group had room it changes nothing and no shelf order of that temperature could move. |
| Fulfilment.FulfillmentSystem.DiscardOrderFromShelfGroup | logic/fulfilment.go:185-198 | `Discarded`: with empty shelves nothing happens. Otherwise the candidate is a least fresh shelf order, and the intermediate state is exactly the `TriedMove` attempt for the candidate's temperature. If that attempt moves an order, it is the whole effect. If not, the candidate's id is removed from the first shelf unit holding it in the intermediate state and a discard is logged. |
| Fulfilment.FulfillmentSystem.PlaceOrder | logic/fulfilment.go:81-139 | `Placed`: ideal group if it has room; else the shelves if they have room; else, for hot and cold, the state after the failed `TriedMove` attempt, then exactly a `Discarded` discard from that state, then a shelf add, which succeeds exactly when the shelves held an order. `PlacedIsStored` and `PlacedDiscardsLeastFresh` draw the consequences. |
| Fulfilment.FulfillmentSystem.PlaceHotOrCold | logic/fulfilment.go:90-124 | Hot and cold orders try the ideal group first, then the rest of `Placed`. |
| Fulfilment.FulfillmentSystem.PlaceBesideFullIdeal | logic/fulfilment.go:101-124 | With the ideal group full: the shelves, then the move attempt and the discard and retry, as `Placed` describes. |
| Fulfilment.FulfillmentSystem.PlaceBesideFullShelves | logic/fulfilment.go:107-124 | With the ideal group and the shelf add refused: the move attempt when the shelves are full, then the discard and retry, as `Placed` describes. |
| Fulfilment.FulfillmentSystem.TryMoveBesideFullIdeal | logic/fulfilment.go:107-115 | The move attempt made beside a full ideal group moves nothing, and its new state is the one `TriedMove` fixes for a failed attempt. |
| Fulfilment.FulfillmentSystem.PlaceRoom | logic/fulfilment.go:125-137 | Room orders go to the shelves, then exactly a `Discarded` discard from the unchanged state and a retry, as `Placed` describes. |
| Fulfilment.FulfillmentSystem.PlaceAfterDiscard | logic/fulfilment.go:118-124 | From the state after the failed move attempt, with the shelves full: exactly a `Discarded` discard, then the shelf add, logged as a place when it succeeds. Together these make the last case of `Placed` relative to the state PlaceOrder started from. The room branch at lines 131-137 takes the same path. |
| Fulfilment.FulfillmentSystem.ShelveAndLog | logic/fulfilment.go:121-124 | The final shelf add: it succeeds exactly when `GroupAdd` on the shelves does, and then the new state is that add followed by one logged place action. A failure changes nothing. |
| Fulfilment.FulfillmentSystem.DiscardFromShelves | logic/fulfilment.go:195-197 | For an id the shelves hold, the removal finds it and the new state is `GroupRemove` of the id from the shelves followed by one logged discard action. |
| Fulfilment.NewGroup | logic/fulfilment.go:38-55 | Builds a fresh group of `n` empty units of the given capacity (none when `n` is not positive), with unit `i` named the prefix followed by `i + 1` in decimal. |
| Fulfilment.FulfillmentSystem.IsFullAt | logic/fulfilment.go:281-288 | Answers whether the heater group (hot) or cooler group (cold) is full, as the tick asks. |
| Fulfilment.FulfillmentSystem.ReallocateOrder | logic/fulfilment.go:281-294 | The outcome and new state are exactly `TickStep`: a listed hot (cold) order is tried shelf unit by shelf unit, in unit order, with `ShelvesFrom`, only while the heaters (coolers) have room. So a success is one logged move of the copy in the first unit holding a movable one. Otherwise nothing changes, and that group is full or no shelf copy of the id can move. |
| Fulfilment.FulfillmentSystem.ReallocateListed | logic/fulfilment.go:280-296 | Over a listing of the shelves, the new state is exactly `TickListed`: `TickStep` for each listed order in listing order. The trace records one logged move per success. Under unique ids every listed order ends up checked. |
| Fulfilment.FulfillmentSystem.ReallocateTick | logic/fulfilment.go:276-296 | `Reallocated`: with room on the shelves nothing happens. Otherwise the end state is exactly `TickListed` over one listing per shelf unit, in unit order, reached by a sequence of logged moves of hot and cold shelf orders into their ideal groups. Under unique ids, afterwards no shelf order could still move into an ideal group with room. |
| Fulfilment.FulfillmentSystem.PickupOrder | logic/fulfilment.go:142-159 | The in-place pickup has exactly the outcome and effect of `Pickup`. |
| Scenarios.DiscardsLeastFresh | logic/fulfilment.go:185-198 | Two orders fill a shelf of two slots. When the less fresh one cannot leave for its ideal group, it is discarded and the other stays. |
| Scenarios.PlacedBesideStaleRoomOrder | logic/fulfilment.go:107-124 | A full shelf of two slots holds a room order and a hot order placed at `now` with its initial freshness, and a hot or cold order arrives while its ideal group is full. The failed move attempt leaves the shelf as it was, the less fresh room order is discarded, and the new order is stored beside the hot one. |
| Scenarios.PlaceBesideStaleRoomOrder | logic/fulfilment.go:81-139 | `PlaceOrder` in that situation leaves the shelf holding exactly the hot order and the new order. |
| Scenarios.TickMovesFirstUnit | logic/fulfilment.go:279-286 | Two one-slot shelf units hold unexpired hot orders `a` and `b`, and the heater has one free slot. The tick moves `a`, the order of the first unit, into the heater re-stamped, logs that one move and leaves `b` on the shelf, because the listing follows unit order. |
| Scenarios.PlaceByDiscarding | logic/fulfilment.go:125-137 | A room order arriving at a full two-slot shelf replaces the least fresh order there. |
| Scenarios.DiscardAllRoomTemperature | test/fulfillment_test.go:67-102 | Three room orders go to a shelf of two slots: the first is discarded, and the second and third remain. |
| Scenarios.DiscardHybrid | test/fulfillment_test.go:104-138 | A room order, then a hot order within a second (no heaters), then a third order: the hot order, decaying at double rate, is discarded, and the other two remain. |
| Scenarios.PickupAfterIdealPlacement | test/fulfillment_test.go:13-65 | Two hot and two cold orders fill one heater and one cooler. After the first of each is picked up, orders 3 and 4 are still in their ideal units and order 1 is not on the shelf. |

## Left out

- Locks and concurrency (the mutexes of the engine, the groups and the units): the model is sequential, so each engine call is one atomic step.
- `RunHarness`, `main.go`, the client, and config loading and saving: these are I/O and process wiring around the core.
- The ticker and stop channel of `ReallocateOrders`: the model covers one tick (`ReallocateTick`), not the infinite loop or its timing.
- Log printing (`log.Printf`): only the recorded action is modelled.
- Clock readings: the source reads the clock several times during one call. The model uses one instant `now` per call, passed as a parameter.
- Go map iteration order: listings and the least-fresh search are specified by membership and minimality, so any order the runtime picks is allowed.
- Temperature strings other than hot, cold and room: the temperature is a three-valued type.
- Integer width: durations and instants are unbounded integers, so `int64` overflow of durations is not modelled.
- Pointers: stored orders are values. The one place aliasing matters, the in-place rewrite of the source entry in `atomicMoveOrder`, is modelled as an update of that entry.
- Fulfilment.FulfillmentSystem.ReallocateTick: within one shelf unit the listing order is left open, as Go's map iteration leaves it, so which of that unit's orders take free ideal slots first is not fixed. The "no movable order left" conclusion is proved only when no id is held by two units. The source lets the same id be placed twice, and a duplicate could otherwise be rewritten after being checked.
- StorageGroups.StorageGroup.GetLeastFreshOrder: among equally fresh orders in different units the source keeps the one of the earliest unit, because its comparison at entity/storage_group.go:56 is strict; the contract allows any of them. Within one unit the choice follows Go's map iteration order, which the model leaves open.
- Scenarios.PickupAfterIdealPlacement: the reallocation goroutine is commented out in the test, so it is not part of the scenario. The two sleeps only let time pass.
