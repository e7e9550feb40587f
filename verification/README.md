# Ships and tax definitions of the Mirage Urbanization city simulation, in Dafny

This project models two parts of the simulation.

**The ship subsystem** (`ShipController`). It has four pieces:

- **Suitability.** A zone suits a ship when every slot of the radius-2 diamond around it is off the map or water.
- **Path search.** Each ship searches a cycle-free tree of suitable cells, rooted at its start cell (`ShipPathNode`).
- **Route.** The ship's route runs from the farthest, fewest-hop node of that tree back to the start. `Move` follows it one cell per call and then takes the ship off the map.
- **Spawning.** The controller spawns ships on suitable cells. It allows at most two per harbour and waits at least the insertion interval between spawns.

**The tax definitions** (`TaxDefinition`). This is a fixed table of three taxes. It also holds the projected income of each tax and the set of selectable rates.

Modules:

- `Zones` (zones.dfy): points, terrain, cardinal neighbours, the diamond, `IsSuitableForShip`, `CalculateDistance`.
- `PathSearch` (path_search.dfy): path nodes and children ordering. It defines the enumeration twice:
  - as the source's recursion (`AllChildPathNodes` / `ChildrenFrom`, with the shared `seen` set threaded through);
  - as a loop over an explicit stack (`EnumerateAllChildPathNodes`), proved equal to the recursion.

  It also holds `EnumeratePathBackwards` and the lemmas about the search: it builds a tree, it is depth-first pre-order with siblings farthest first, and it finds every cell reachable through suitable water.
- `Ships` (ships.dfy): target choice, the route task, the `Move` state machine and the `Ship` class.
- `ShipControl` (ship_controller.dfy): the `ShipController` class and `PrepareVehiclesWithStructures`, with `PrepareTwice` stating the insertion throttle across two calls.
- `Taxes` (tax_definition.dfy): tax definitions, projected income, selectable rates, the rate accessor.
- `Results` (results.dfy): `Option` and `Result`.

The map is a `map<Point, Terrain>`. A cell is on the map exactly when it is a key. The zone-grid API is not part of this model, so its geometry is assumed here:

- `GetSurroundingZoneInfosDiamond(2)` gives the cell itself and every cell within Manhattan distance 2.
- `GetNorthEastSouthWest` gives (x, y-1), (x+1, y), (x, y+1), (x-1, y), in that order. The order only matters for ties in the distance sort.

Time is counted in `TimeSpan` ticks of 100 ns. Decimal tax rates are counted in whole hundredths, which is exact for every rate the source uses.

Behaviour of the source that is easy to misread:

- **When a cell is marked seen.** The children of a node are a lazy LINQ query. A child's cell is added to `seen` when its node is created, just before it is yielded. So a cell that an earlier sibling's subtree claims is skipped later. The enumeration is a pre-order depth-first search with one global visited set. Cells are not marked when a node's siblings are first admitted.
- **When the search finds nothing.** `First()` then throws, the route task faults, and every due `Move` rethrows the fault. The ship does not simply become exhausted. This is `RouteState.Faulted` and `MoveOutcome.RouteFault`.
- **Moves after the route ends.** A C# iterator keeps its last `Current`. So a due `Move` after the route is exhausted moves the ship to the start cell again and then off the map again.
- **The spawn test is strict.** A ship may be spawned only when `now - interval > lastInsertion`, not `>=`.
- **What the cache is used for.** The cached candidate set is only tested for null. Each spawn rescans the map for suitable cells.
- **The fail-fast check at ShipController.cs:176-177 never fires.** A node is only created for a cell that is not yet seen (`ChildrenFromAccounting`).

## Model

| member | source | states |
|---|---|---|
| `Zones.CalculateDistance` | src/Mirage.Urbanization/Vehicles/ShipController.cs:115-120 | the squared distance is non-negative and is zero exactly for equal points |
| `Zones.CalculateDistanceSymmetric` | src/Mirage.Urbanization/Vehicles/ShipController.cs:115-120 | the squared distance is symmetric |
| `Zones.NorthEastSouthWest` | src/Mirage.Urbanization/Vehicles/ShipController.cs:183 | there are four neighbour slots, and they are exactly the cells one step away along one axis |
| `Zones.SurroundingDiamond` | src/Mirage.Urbanization/Vehicles/ShipController.cs:66 | the diamond slots are exactly the cells within Manhattan distance 2 |
| `Zones.SuitableIffDiamondIsWater` | src/Mirage.Urbanization/Vehicles/ShipController.cs:63-68 | a cell is suitable iff every cell within Manhattan distance 2 is off the map or water |
| `Zones.LakeWithIslandSuitability` | src/Mirage.Urbanization/Vehicles/ShipController.cs:63-68 | on a 5x5 lake with land at (2,2), the cell (0,0) is suitable and (2,2) is not |
| `Zones.IsSuitableForShip` | src/Mirage.Urbanization/Vehicles/ShipController.cs:63-68 | no contract of its own: it tests every slot of the diamond, and `Zones.SuitableIffDiamondIsWater` states what that means |
| `Zones.SuitableCells` | src/Mirage.Urbanization/Vehicles/ShipController.cs:46-47 | the candidate set holds exactly the on-map cells with no land or built cell within Manhattan distance 2 |
| `PathSearch.WhereSuitable` | src/Mirage.Urbanization/Vehicles/ShipController.cs:184 | it keeps exactly the neighbours that are on the map and suitable, in their order in the input (the result is a subsequence of the input) |
| `PathSearch.OrderByDescendingDistance` | src/Mirage.Urbanization/Vehicles/ShipController.cs:185 | the result is a permutation of the input, sorted by descending squared distance from the root, and stable: the cells at each distance keep their input order |
| `PathSearch.ChildCandidates` | src/Mirage.Urbanization/Vehicles/ShipController.cs:182-185 | the candidate children are exactly the present, suitable cardinal neighbours, farthest from the root first |
| `PathSearch.ChildCandidatesTieOrder` | src/Mirage.Urbanization/Vehicles/ShipController.cs:182-185 | candidates at the same squared distance from the root come in north, east, south, west order, because the filter keeps the neighbour order and the sort is stable |
| `PathSearch.AllChildPathNodes` | src/Mirage.Urbanization/Vehicles/ShipController.cs:141-149 | enumerating a subtree only adds cells to the shared seen set |
| `PathSearch.ChildrenFrom` | src/Mirage.Urbanization/Vehicles/ShipController.cs:182-196 | trying the remaining siblings, each with its subtree first, only adds cells to the seen set |
| `PathSearch.EnumerateAllChildPathNodes` | src/Mirage.Urbanization/Vehicles/ShipController.cs:141-149 | the explicit-stack DFS yields exactly the recursive pre-order enumeration; it yields no cell twice and never the root, and every node is a valid hop from the root or from an earlier node |
| `PathSearch.ChildrenFromAccounting` | src/Mirage.Urbanization/Vehicles/ShipController.cs:176-177 | every created node's cell was not yet seen and is added; the seen set afterwards is the old set plus the yielded cells; no cell is yielded twice |
| `PathSearch.AllChildAccounting` | src/Mirage.Urbanization/Vehicles/ShipController.cs:176-186 | the same accounting for a whole subtree |
| `PathSearch.ChildrenFromShape` | src/Mirage.Urbanization/Vehicles/ShipController.cs:182-193 | each yielded node is a present, suitable cardinal neighbour of its predecessor with one more hop; its predecessor is the parent or a node yielded earlier |
| `PathSearch.AllChildShape` | src/Mirage.Urbanization/Vehicles/ShipController.cs:141-149 | the same shape for a whole subtree |
| `PathSearch.Enumerate` | src/Mirage.Urbanization/Vehicles/ShipController.cs:129-149 | no contract of its own: the root node (hop count 0, seen set holding the root) enumerated by the recursion; the three lemmas below state its properties |
| `PathSearch.EnumerationIsTree` | src/Mirage.Urbanization/Vehicles/ShipController.cs:129-149 | from the root the enumeration yields distinct cells, never the root, and each node is a valid hop from the root or from a node yielded earlier |
| `PathSearch.AllChildPreOrder` | src/Mirage.Urbanization/Vehicles/ShipController.cs:141-149 | a subtree's enumeration is depth-first pre-order below its node |
| `PathSearch.ChildrenFromPreOrder` | src/Mirage.Urbanization/Vehicles/ShipController.cs:143-147 | each child is followed by its whole subtree before the next child, so the sequence is depth-first pre-order below the parent |
| `PathSearch.AllChildSiblings` | src/Mirage.Urbanization/Vehicles/ShipController.cs:182-186 | within a subtree, nodes with the same predecessor come farthest from the root first |
| `PathSearch.ChildrenFromSiblings` | src/Mirage.Urbanization/Vehicles/ShipController.cs:182-196 | the parent's own children are yielded in candidate order, so farthest first, and siblings deeper down keep that order too |
| `PathSearch.EnumerationIsPreOrder` | src/Mirage.Urbanization/Vehicles/ShipController.cs:141-149 | the first node is a child of the root; each next node is a child of the node before it or of a node on that node's way back to the root; siblings come in descending squared distance from the root |
| `PathSearch.AllChildClosed` | src/Mirage.Urbanization/Vehicles/ShipController.cs:141-149 | after a subtree is enumerated, the candidate children of its node and of all its nodes are seen |
| `PathSearch.ChildrenFromClosed` | src/Mirage.Urbanization/Vehicles/ShipController.cs:182-196 | after the siblings are tried, every candidate is seen, and so are the candidate children of every node yielded |
| `PathSearch.EnumerationIsComplete` | src/Mirage.Urbanization/Vehicles/ShipController.cs:129-149 | every cell other than the root that a walk through present, suitable cardinal neighbours reaches from the root is yielded |
| `PathSearch.EnumeratePathBackwards` | src/Mirage.Urbanization/Vehicles/ShipController.cs:153-159 | the walk starts at the node, ends at a root node, and each entry is followed by its predecessor |
| `PathSearch.PathBackwardsOfValidNode` | src/Mirage.Urbanization/Vehicles/ShipController.cs:153-159 | from a valid node the walk has hop count + 1 entries and ends at the start; consecutive cells are cardinal neighbours, and all cells but the start are suitable |
| `PathSearch.PathBackwardsIsCycleFree` | src/Mirage.Urbanization/Vehicles/ShipController.cs:153-177 | in a tree enumeration, the walk from any node back to the root repeats no cell and passes only the root and cells yielded up to that node |
| `Ships.FarthestKey` | src/Mirage.Urbanization/Vehicles/ShipController.cs:84-86 | the first group's key is the largest squared distance among the nodes |
| `Ships.Group` | src/Mirage.Urbanization/Vehicles/ShipController.cs:84 | the group holds exactly the nodes with the given key |
| `Ships.FewestHops` | src/Mirage.Urbanization/Vehicles/ShipController.cs:87 | this is the least hop count in the group, and some member attains it |
| `Ships.FirstWithHops` | src/Mirage.Urbanization/Vehicles/ShipController.cs:87-88 | it returns a group member with the requested hop count |
| `Ships.SelectTarget` | src/Mirage.Urbanization/Vehicles/ShipController.cs:82-88 | there is no target exactly when the enumeration is empty; otherwise the target is one of the nodes |
| `Ships.FirstOfGroup` | src/Mirage.Urbanization/Vehicles/ShipController.cs:84-88 | the node that `OrderBy(hops).First()` picks from a group is the first node of the whole enumeration with that key and hop count |
| `Ships.FarthestFewestUnique` | src/Mirage.Urbanization/Vehicles/ShipController.cs:84-88 | at most one position of an enumeration is farthest, fewest-hop and first among equals |
| `Ships.SelectTargetIsFarthestFewest` | src/Mirage.Urbanization/Vehicles/ShipController.cs:82-88 | the target has the maximal squared distance and the fewest hops in that group; ties go to the first in enumeration order; it is the only position with these properties |
| `Ships.RouteFromTreeNode` | src/Mirage.Urbanization/Vehicles/ShipController.cs:89-92 | the route from a tree node starts at its cell and has hop count + 1 cells; it ends at the start, steps between neighbours and repeats no cell |
| `Ships.PlanRoute` | src/Mirage.Urbanization/Vehicles/ShipController.cs:78-92 | the route task fails exactly when the search yields no node |
| `Ships.PlanRouteCorrect` | src/Mirage.Urbanization/Vehicles/ShipController.cs:80-94 | the route task fails iff the search yields nothing; otherwise the route runs from the farthest fewest-hop node back to the start, through neighbours, without repeats |
| `Ships.RouteStartsFarthestReachable` | src/Mirage.Urbanization/Vehicles/ShipController.cs:82-88 | the route starts at a cell at least as far (squared distance) from the start as every cell reachable from the start through suitable water |
| `Ships.ComputeRoute` | src/Mirage.Urbanization/Vehicles/ShipController.cs:78-95 | the task body (DFS method, target choice, backward walk) computes the planned route |
| `Ships.MoveStep` | src/Mirage.Urbanization/Vehicles/ShipController.cs:101-112 | state changes only on a due call with a ready route; a ready route always moves the ship; a faulted task faults exactly on due calls |
| `Ships.WalkFollowsRoute` | src/Mirage.Urbanization/Vehicles/ShipController.cs:105-112 | due calls visit the route cells in order (target first, start last), then move the ship off the map |
| `Ships.PendingShipStaysPut` | src/Mirage.Urbanization/Vehicles/ShipController.cs:103-104 | while the route task is incomplete, every `Move` is a no-op |
| `Ships.Ship.constructor` | src/Mirage.Urbanization/Vehicles/ShipController.cs:74-77 | a new ship stands on its start cell with its route task pending |
| `Ships.Ship.CompleteRouteTask` | src/Mirage.Urbanization/Vehicles/ShipController.cs:78-95 | when the task completes, the ship holds the planned route with the enumerator on the target, or a fault; its position is unchanged |
| `Ships.Ship.Move` | src/Mirage.Urbanization/Vehicles/ShipController.cs:101-113 | one call follows `MoveStep`, and the position is the last cell moved to |
| `ShipControl.ShipController.constructor` | src/Mirage.Urbanization/Vehicles/ShipController.cs:15-31 | defaults: a five-second interval, speed 500, no ships, last insertion at creation |
| `ShipControl.ShipController.WithSettings` | src/Mirage.Urbanization/Vehicles/ShipController.cs:20-31 | the given interval and speed, no ships, last insertion at creation |
| `ShipControl.ShipController.NewShipCanBeInserted` | src/Mirage.Urbanization/Vehicles/ShipController.cs:33 | the strict test: a ship may be inserted exactly when more than the insertion interval has passed since the last insertion; the throttle this imposes across calls is stated by `ShipControl.ShipController.PrepareTwice` |
| `ShipControl.ShipController.PrepareVehiclesWithStructures` | src/Mirage.Urbanization/Vehicles/ShipController.cs:35-61 | ships are only appended, never past max(old count, 2 × harbours); a ship is spawned only when the cache value is non-null and the interval has strictly elapsed, and then the last insertion becomes `now`; with a fixed clock and a non-negative interval, at most one ship per call; each new ship is fresh, stands on a suitable cell and has its route pending; the count reached is exactly what those conditions allow |
| `ShipControl.ShipController.PrepareTwice` | src/Mirage.Urbanization/Vehicles/ShipController.cs:33-55 | of two consecutive calls at `now1` and then `now2`, both spawn a ship only if `now2 - now1` exceeds the insertion interval, and the last insertion is then `now2`; if neither spawns, the last insertion is unchanged; ships are only appended |
| `Taxes.TaxDefinitions` | src/Mirage.Urbanization.Simulation/TaxDefinition.cs:28-36 | there are three definitions, Residential, Commercial, Industrial in that order, with distinct names and kinds |
| `Taxes.GetProjectedIncome` | src/Mirage.Urbanization.Simulation/TaxDefinition.cs:22-26 | projected income is 0 for no records and the record's own income for one record |
| `Taxes.ProjectedIncomeAdditive` | src/Mirage.Urbanization.Simulation/TaxDefinition.cs:24-26 | projected income is additive over concatenated histories |
| `Taxes.ProjectedIncomeNonNegative` | src/Mirage.Urbanization.Simulation/TaxDefinition.cs:24-26 | non-negative incomes give a non-negative projection |
| `Taxes.CurrentRate` | src/Mirage.Urbanization.Simulation/BudgetComponentDefinition.cs:25 | no contract of its own: the rate field the definition names (TaxDefinition.cs:24-26); `Taxes.SetCurrentRate` states its get-after-set behaviour |
| `Taxes.SetCurrentRate` | src/Mirage.Urbanization.Simulation/BudgetComponentDefinition.cs:20-26 | reading a rate after setting it returns the value set; the other rates are unchanged |
| `Taxes.GetSelectableTaxRatePercentages` | src/Mirage.Urbanization.Simulation/TaxDefinition.cs:42-48 | the selectable rates are exactly k/100 for 0 ≤ k < 20 |
| `Taxes.GetSelectableRatePercentages` | src/Mirage.Urbanization.Simulation/TaxDefinition.cs:40 | the instance method's rates are exactly k/100 for 0 ≤ k < 20 |
| `Taxes.SelectableRates` | src/Mirage.Urbanization.Simulation/TaxDefinition.cs:38-43 | there are 20 distinct rates, from 0 to 0.19, and `DefaultTaxRate` (the constant 0.07 of line 38) is among them |

## Left out

- The candidate cache (`SimpleCache` and its one-minute lifetime) is not part of this model. Its current value is a parameter of `PrepareVehiclesWithStructures`.
- The base vehicle controller and base vehicle are not part of this model. This covers the per-tick advancement of all ships, the removal of ships that left the map, the speed throttle `IfMustBeMoved` and the base `Move(zone)`. The throttle's verdict is the `due` parameter. The base `Move` calls are returned as `MoveOutcome.Moved` steps.
- The route task's concurrency (`Task.Start`, `IsCompleted`) is modelled as an explicit `Pending` state that `CompleteRouteTask` ends.
- `Random.Next()`: the random pick among suitable cells is modelled as an arbitrary choice of any suitable cell.
- `DateTime.Now` is the parameter `now`, fixed for one call. The source reads the clock again at every loop test. A clock that advances during one call is not modelled.
- `ShipControl.ShipController.PrepareVehiclesWithStructures`: it bounds the count only by the larger of the old count and the capacity. Nothing in the source reacts to harbours disappearing: the count falls only as ships finish their routes and the base controller removes them.
- `Ships.MoveStep`: its contract states which calls change state and which fault. The exact cells moved to are stated by `Ships.WalkFollowsRoute` instead.
- Null arguments to the `ShipPathNode` constructor (`ArgumentNullException`) cannot occur in the model, because cells are values.
- `CalculateDistance` works on 32-bit `int` and would overflow for coordinates beyond about 32 000. `Sum` over `int` throws on overflow. The model uses unbounded integers for both.
- Tax definition names and rate fields are plain values. The source binds them by reflection over an expression tree.
- The browser client (`game.js`) is not part of this model: drawing, dialogs and hub callbacks.
