# BeefCore multiblocks in Dafny

This project models the engine behind BeefCore's multiblock machines. In the
game, grid cells called *parts* sit at integer block coordinates. A part is a
tile entity implementing `IMultiblockPart`. Parts join clusters, and each
cluster is owned by a *controller* (`MultiblockControllerBase`).

A per-world *registry* (`MultiblockWorldRegistry`) resolves the consequences
of placing, breaking, loading and unloading parts in one batch at the end of
every tick. The batch runs these passes:

1. Orphans attach to neighbouring machines or found new ones.
2. Adjacent machines are gathered into merge pools and merged into the
   machine with the least reference coordinate.
3. Dirty machines are checked for parts that are no longer connected, then
   revalidated.
4. Dead machines are unregistered.
5. Detached parts become the next tick's orphans.

The files:

- `coords.dfy` (module `Coords`) models `CoordTriplet`:
  - value equality against any Java object;
  - the lexicographic (x, y, z) order of `compareTo` and its total-order laws;
  - the NetBeans hash with Java's 32-bit wrap-around, written out explicitly;
  - the face direction between two blocks;
  - the chunk arithmetic `x >> 4` and Minecraft's `ChunkCoordIntPair.chunkXZ2Int` key;
  - the six face neighbours, in the order `getNeighboringParts` lists them.
- `wrappers.dfy` (module `Wrappers`) holds `Option`, `Result` and `Outcome`,
  and the Java exceptions the core throws deliberately (`IllegalArgument`,
  `IllegalState`, and the `NullPointer` that an absent reference causes).
- `validation.dfy` (module `Validation`) holds the value-level rules of
  `isMachineWhole`:
  - the size limits a controller declares, with `DIMENSION_UNBOUNDED = -1`;
  - the checks that refuse a machine, in source order, with their messages;
  - the classification of each cell of the bounding box as frame, top,
    bottom, side or interior;
  - the part-level shape verdicts, which map positions to the reasons a part
    refuses them, as the throwing form of
    `rectangular/IMultiblockPartRectangular.java` does;
  - the fixed refusal for an empty cell.
- `pools.dfy` (module `Pools`) models merge-pool building over sequences of
  sets:
  - the pass as written (first intersecting pool);
  - a corrected pass that joins every intersecting pool (see Findings).
- `multiblock.dfy` (module `Multiblock`) holds the three imperative classes:
  - `Controller`: `connectedBlocks`, `referenceCoord`, the assembly state,
    `shouldCheckForDisconnections`, `lastValidationException`, the bounding
    box, and a trace of the lifecycle callbacks it fires;
  - `Part`: `controller`, `visited`, the save-delegate flag;
  - `Registry`: the controller sets, the dirty, dead, orphan and detached
    sets, and the map of parts awaiting a chunk load.

The world is a value, `World(tiles, loaded)`. `tiles` maps each position
holding a multiblock-part tile entity to its `Part`, and `loaded` is the set
of loaded chunk columns. A part "resolves" when its chunk is loaded and its
position holds a part.

Calls that the Java makes through the static `MultiblockRegistry` singleton
(`addDirtyController`, `addDeadController`) take the registry as a parameter
in the model. Queries without side effects are predicates used throughout
the contracts: `hasBlock` is `Controller.HasBlock`, `isEmpty` is `IsEmpty`,
`isAssembled` is `IsAssembled`, and `isConnected`/`isVisited` are
`Part.IsConnected`/`IsVisited`.

The source is mid-refactor, and some methods it calls are not defined in it.
These are modelled by their evident meaning:

- `attachToNeighbors` attaches to the neighbouring controller with the least
  reference, using the selection loop of `onBlockAdded`. It returns the
  distinct neighbouring controllers, or none.
- `createNewMultiblock` builds a fresh controller with the part's factory
  and attaches the part to it, as `MultiblockTileEntityBase.java:391-394` does.
  That method returns `void`, while the registry uses its result as the new
  controller and attaches the orphan once more
  (`MultiblockWorldRegistry.java:124-125`). The registry's comments say this
  is the one place where a part attaches and a controller is created
  (`MultiblockWorldRegistry.java:117, 122`), so the model attaches the orphan
  once, to the controller `createNewMultiblock` made.
- `assertDetached` clears the part's controller.
- `merge` is `assimilate`, and `beginMerging`/`endMerging` do nothing.
- The controller's call `onAssimilated` on a part is `onMergedIntoOtherMultiblock`.
- The sweep of `checkForDisconnections` calls a three-argument
  `onOrphaned(controller, originalSize, visitedParts)` on each cut-off part
  (MultiblockControllerBase.java:872), which no part type declares. It is read
  as the orphan-data hook that goes with `getOrphanData`, and it changes no
  state of the model; the part's own `onOrphaned()` is not meant, since it
  throws on a part that is still connected, as every part about to be cut off is.
- `getChunkX`/`getChunkZ` are `x >> 4` and `z >> 4`. `getChunkXZHash` is
  `chunkXZ2Int` of the two.

## Model

| member | source | states |
|---|---|---|
| Coords.Equals | erogenousbeef/core/common/CoordTriplet.java:13-23 | equality holds exactly for a CoordTriplet object with the same three components; it is false for null and for objects of other classes |
| Coords.EqualsXYZ | erogenousbeef/core/common/CoordTriplet.java:25-27 | the three-int form agrees with `equals` on the triplet built from those ints |
| Coords.EqualsIsEquivalence | erogenousbeef/core/common/CoordTriplet.java:13-23 | equality is reflexive, symmetric and transitive, and false against null or a non-coordinate |
| Coords.CompareTo | erogenousbeef/core/common/CoordTriplet.java:64-76 | the result is in {-1, 0, 1}; it is -1 exactly when this is lexicographically less on (x, y, z), 1 exactly when greater, and 0 against any non-coordinate |
| Coords.CompareZeroIffEquals | erogenousbeef/core/common/CoordTriplet.java:64-76 | `compareTo` is 0 exactly when `equals` holds |
| Coords.CompareAntisymmetric | erogenousbeef/core/common/CoordTriplet.java:64-76 | swapping the operands negates the result |
| Coords.CompareTransitive | erogenousbeef/core/common/CoordTriplet.java:64-76 | both the strict and the non-strict order are transitive |
| Coords.CompareTotal | erogenousbeef/core/common/CoordTriplet.java:64-76 | any two different coordinates are strictly ordered one way or the other |
| Coords.LeastUnique | erogenousbeef/core/multiblock/MultiblockControllerBase.java:34-40 | a set has at most one least coordinate, so the reference coordinate it describes is well defined |
| Coords.LeastInsert | erogenousbeef/core/multiblock/MultiblockControllerBase.java:127-137 | adding a coordinate to a set keeps its least element, unless the new coordinate compares lower, in which case that coordinate becomes the least |
| Coords.LeastExists | erogenousbeef/core/multiblock/MultiblockControllerBase.java:34-40 | every non-empty set of coordinates has a least element |
| Coords.Wrap32 | erogenousbeef/core/common/CoordTriplet.java:30-36 | the reduction stays within Java's int range and is congruent to its argument modulo 2^32 |
| Coords.HashCodeClosedForm | erogenousbeef/core/common/CoordTriplet.java:30-36 | the step-by-step wrapped hash is a Java int and equals the wrapped closed form 7·71³ + 71²·x + 71·y + z |
| Coords.HashCodeRespectsEquals | erogenousbeef/core/common/CoordTriplet.java:30-36 | equal coordinates have equal hash codes |
| Coords.Opposite | erogenousbeef/core/common/CoordTriplet.java:48-57 | the opposite direction is UNKNOWN exactly when the direction is UNKNOWN |
| Coords.OppositeInvolutive | erogenousbeef/core/common/CoordTriplet.java:48-57 | taking the opposite twice gives the original direction, and no known direction is its own opposite |
| Coords.DirectionUnknownIffSame | erogenousbeef/core/common/CoordTriplet.java:38-57 | both direction functions return UNKNOWN exactly when the coordinates are equal |
| Coords.OppositeDirectionIsOpposite | erogenousbeef/core/common/CoordTriplet.java:38-57 | for every input, `getOppositeDirectionFromSourceCoords` is the opposite of `getDirectionFromSourceCoords` (WEST/EAST, DOWN/UP, SOUTH/NORTH) |
| Coords.DirectionSwap | erogenousbeef/core/common/CoordTriplet.java:38-46 | the direction from b to a is the opposite of the direction from a to b |
| Coords.DirectionFollowsOrder | erogenousbeef/core/common/CoordTriplet.java:38-46 | the direction is WEST, DOWN or SOUTH exactly when `compareTo` is negative, and EAST, UP or NORTH exactly when it is positive |
| Coords.Copy | erogenousbeef/core/common/CoordTriplet.java:59-61 | the copy equals the original in both directions, compares 0 against it both ways, and has the same hash |
| Coords.Shr4 | erogenousbeef/core/multiblock/MultiblockControllerBase.java:799 | `x >> 4` is the floor of x / 16, including for negative x: 16·r ≤ x < 16·r + 16 |
| Coords.ChunkKeyInjective | erogenousbeef/core/multiblock/MultiblockWorldRegistry.java:346 | different int chunk columns get different `chunkXZ2Int` keys, so a bucket never mixes two chunks |
| Coords.NeighboursAreFaceAdjacent | erogenousbeef/core/multiblock/MultiblockTileEntityBase.java:398-405 | the six listed neighbours are exactly the coordinates at ±1 on one axis |
| Coords.NeighboursSymmetric | erogenousbeef/core/multiblock/MultiblockTileEntityBase.java:398-405 | b neighbours a exactly when a neighbours b |
| Coords.NeighboursDistinct | erogenousbeef/core/multiblock/MultiblockTileEntityBase.java:398-405 | the six neighbours are pairwise different and never the block itself |
| Validation.SizeProblemIffOutsideLimits | erogenousbeef/core/multiblock/MultiblockControllerBase.java:307-328 | the size checks refuse exactly when the block count is below the minimum, or some span exceeds a positive maximum or falls below its minimum; the reported problem names the violated limit and the axis |
| Validation.UnboundedNeverTooLarge | erogenousbeef/core/multiblock/MultiblockControllerBase.java:323-325 | a maximum of 0 or less, such as `DIMENSION_UNBOUNDED`, never produces "too large" on its axis |
| Validation.ClassifyGeometry | erogenousbeef/core/multiblock/MultiblockControllerBase.java:349-400 | in a box at least two wide on each axis, the extremes count classifies a cell as interior, top, bottom, side or frame exactly by its geometric place: strictly inside, top face, bottom face, a vertical face, or an edge |
| Validation.FlatBoxIsAllFrame | erogenousbeef/core/multiblock/MultiblockControllerBase.java:349-365 | in a box one block thick on some axis, every cell counts as frame |
| Validation.CellProblem | erogenousbeef/core/multiblock/MultiblockControllerBase.java:339-400 | a cell passes only if it holds a part; an empty cell always fails with the controller's fixed "not valid" message |
| Validation.FirstRefusedUnique | erogenousbeef/core/multiblock/MultiblockControllerBase.java:334-336 | the first refused cell, in the x-then-y-then-z order of the loops, is unique |
| Validation.PassingBoxIsFull | erogenousbeef/core/multiblock/MultiblockControllerBase.java:625-675 | if every cell of the box passes, then every cell holds a part |
| Validation.LonePartIsWhole | erogenousbeef/core/multiblock/MultiblockWorldRegistry.java:201-203 | with the test mod's limits, a single part that accepts the frame position is a whole machine once its box is recomputed |
| Validation.StaleBoxRefusesLonePart | erogenousbeef/core/multiblock/MultiblockWorldRegistry.java:201-203 | a fresh controller's stale (0,0,0) box refuses a lone part placed elsewhere, because the stale box's cell is empty |
| Pools.AddToFirstPool | erogenousbeef/core/multiblock/MultiblockWorldRegistry.java:128-148 | the pass as written: the loop produces the first-intersecting-pool result, and the union of the pools grows by exactly the new set |
| Pools.FirstMeetUnion | erogenousbeef/core/multiblock/MultiblockWorldRegistry.java:128-148 | the as-written pass loses and invents no controllers |
| Pools.FirstMeetAt | erogenousbeef/core/multiblock/MultiblockWorldRegistry.java:136-143 | when pool i is the first pool that meets the set, the as-written pass adds the set to pool i and leaves every other pool as it was |
| Pools.FirstMeetNone | erogenousbeef/core/multiblock/MultiblockWorldRegistry.java:145-147 | when no pool meets the set, the as-written pass appends it as a new last pool |
| Pools.FirstMeetCanOverlap | erogenousbeef/core/multiblock/MultiblockWorldRegistry.java:135-147 | disjoint pools {1,2} and {3,4} plus the set {2,3} give the overlapping pools {1,2,3} and {3,4} |
| Pools.AddToPools | erogenousbeef/core/multiblock/MultiblockWorldRegistry.java:128-148 | the corrected pass: the result is the untouched pools followed by one pool holding the new set and every pool it meets; the union grows by exactly the new set, and disjoint pools stay disjoint |
| Pools.GatheredProperties | erogenousbeef/core/multiblock/MultiblockWorldRegistry.java:128-148 | the corrected pools keep the union, preserve pairwise disjointness, fold every pool that meets the set into the joined pool, and keep every other pool as it was |
| Pools.GatherPooled | erogenousbeef/core/multiblock/MultiblockWorldRegistry.java:128-148 | over registered controllers, gathering a non-empty set keeps the pools disjoint, non-empty and registered |
| Pools.GatheringJoinsTheExample | erogenousbeef/core/multiblock/MultiblockWorldRegistry.java:135-147 | the corrected pass turns the overlapping example into the single pool {1,2,3,4} |
| Multiblock.Controller.constructor | erogenousbeef/core/multiblock/MultiblockControllerBase.java:66-80 | a new controller has no members, a null reference, state Disassembled, a (0,0,0) box, the check flag set and no validation error |
| Multiblock.Controller.AttachBlock | erogenousbeef/core/multiblock/MultiblockControllerBase.java:108-143 | the position becomes a member and the part points to this controller; the reference moves to the part exactly when it was null or the part compares lower, and the delegate flag follows it while the old reference part forfeits its flag; the controller is marked dirty; a least reference stays least; an old reference with no part is the `NullPointerException` at line 133 |
| Multiblock.Controller.OnDetachBlock | erogenousbeef/core/multiblock/MultiblockControllerBase.java:184-191 | passes exactly when the part belongs to this controller; then the part is unattached and no delegate, and the check flag is set; otherwise nothing changes |
| Multiblock.Controller.DetachBlock | erogenousbeef/core/multiblock/MultiblockControllerBase.java:199-247 | an unloading detach of an Assembled machine pauses it and fires "paused" before the part is checked, so it does so even when the detach then throws, and no other detach changes the state; on a pass the position leaves the members; an empty machine is marked dead and not dirty, otherwise dirty; a cleared reference is re-elected as the least loaded, resolving member, which becomes the delegate; an unattached or foreign part throws, and apart from that pause nothing changes |
| Multiblock.Controller.PauseForUnload | erogenousbeef/core/multiblock/MultiblockControllerBase.java:201-204 | Assembled goes to Paused and fires "paused" exactly on an unloading detach |
| Multiblock.Controller.ForgetBlock | erogenousbeef/core/multiblock/MultiblockControllerBase.java:208-246 | the membership, dead/dirty and reference re-election half of `detachBlock` |
| Multiblock.Controller.IsMachineWhole | erogenousbeef/core/multiblock/MultiblockControllerBase.java:306-406 | returns no problem exactly when the machine passes the size checks and every box cell passes; otherwise it returns the first problem in source order (size checks first, then cells in loop order) |
| Multiblock.Controller.CheckIfMachineIsWhole | erogenousbeef/core/multiblock/MultiblockControllerBase.java:414-437 | the last error is null exactly when the machine is whole; whole goes to Assembled, firing "restored" from Paused and "assembled" otherwise; not whole and Assembled goes to Disassembled; anything else leaves the state alone |
| Multiblock.Controller.AssembleMachine | erogenousbeef/core/multiblock/MultiblockControllerBase.java:444-461 | the state becomes Assembled and the callback is "restored" if it was Paused, "assembled" otherwise |
| Multiblock.Controller.DisassembleMachine | erogenousbeef/core/multiblock/MultiblockControllerBase.java:469-487 | the state becomes Disassembled and "disassembled" fires |
| Multiblock.Controller.RecalculateMinMaxCoords | erogenousbeef/core/multiblock/MultiblockControllerBase.java:694-706 | every member lies within [min, max] on every axis, and each bound is attained by some member; an empty machine gets the Integer.MAX_VALUE/MIN_VALUE sentinels |
| Multiblock.BoundsOf | erogenousbeef/core/multiblock/MultiblockControllerBase.java:698-705 | the accumulating loop yields, per axis, a lower and upper bound attained by a member (or still the sentinel) |
| Multiblock.SpansBox | erogenousbeef/core/multiblock/MultiblockControllerBase.java:694-706 | per-axis spans give a box that contains every member and, for a non-empty set of ints, is tight |
| Multiblock.Controller.RevalidateAsWritten | erogenousbeef/core/multiblock/MultiblockWorldRegistry.java:201-203 | the source order, validate then recompute: the machine is judged against the box from BEFORE the recomputation, and the box is tight only afterwards |
| Multiblock.Controller.Revalidate | erogenousbeef/core/multiblock/MultiblockWorldRegistry.java:201-203 | the corrected order, recompute then validate: the box is tight around the members and the verdict and state transition are those of `checkIfMachineIsWhole` on that box |
| Multiblock.Controller.UpdateMultiblockEntity | erogenousbeef/core/multiblock/MultiblockControllerBase.java:564-574 | game logic runs exactly when the machine is non-empty and Assembled; an empty machine marks itself dead |
| Multiblock.Controller.ShouldConsume | erogenousbeef/core/multiblock/MultiblockControllerBase.java:744-762 | a controller of another class throws the different-classes `IllegalArgumentException`; same class: true exactly when the other is a different controller with a greater reference, false for itself or a smaller reference; a missing own reference throws `NullPointerException`, and a missing or equal other reference throws the same-reference `IllegalArgumentException` |
| Multiblock.Controller.OnAssimilated | erogenousbeef/core/multiblock/MultiblockControllerBase.java:528-540 | the consumed controller ends with no members and a null reference, and its loaded reference part forfeits the delegate flag |
| Multiblock.Controller.Assimilate | erogenousbeef/core/multiblock/MultiblockControllerBase.java:496-521 | throws unless this reference is strictly less than the other's (when that is non-null); otherwise the other is emptied and its reference cleared, this gains every former member of the other that holds a part, those parts now point here, nothing else changes owner, and least references stay least |
| Multiblock.Controller.Acquire | erogenousbeef/core/multiblock/MultiblockControllerBase.java:508-517 | the acquisition loop adds exactly the positions that hold parts and points those parts at this controller |
| Multiblock.Controller.MergeStep | erogenousbeef/core/multiblock/MultiblockTileEntityBase.java:103-105 | one `merge` keeps this reference and passes exactly when the merged controller is admitted by the assimilate order (or skipped as empty on the client); on a pass the members gain exactly the merged controller's former members that hold a part, those parts point here, and no part changes owner except to this controller |
| Multiblock.Controller.AllAdmittedIff | erogenousbeef/core/multiblock/MultiblockTileEntityBase.java:103-105 | the recursive admission test over the merge list is equivalent to "every listed controller is admitted" |
| Multiblock.Controller.AssimilateAll | erogenousbeef/core/multiblock/MultiblockTileEntityBase.java:102-106 | the merge loop passes exactly when every other controller was admitted; then each is emptied into this one: the members gain exactly the former members of all of them that hold a part, those parts point here, and the reference is unchanged |
| Multiblock.Controller.DetachAllBlocks | erogenousbeef/core/multiblock/MultiblockControllerBase.java:892-913 | succeeds exactly when every loaded, resolving member points here; then the members are empty and the result is exactly the loaded parts, each unattached and without the delegate flag; otherwise `onDetached` throws and the members are unchanged |
| Multiblock.Controller.CheckForDisconnections | erogenousbeef/core/multiblock/MultiblockControllerBase.java:769-885 | returns null and changes nothing when the flag is off or the machine is empty, and returns null with no members when nothing resolves; otherwise the reference is the least surviving member, unresolving members are dropped, every remaining member is reached by a same-controller path from the reference, every reachable member remains, and the returned parts are exactly the dropped ones, now unattached |
| Multiblock.Controller.Prune | erogenousbeef/core/multiblock/MultiblockControllerBase.java:791-823 | members become exactly the resolving ones, the reference the least of those (with the still-resolving old reference), and the visited flags of members are cleared |
| Multiblock.Controller.PruneScan | erogenousbeef/core/multiblock/MultiblockControllerBase.java:797-820 | the scan loop collects exactly the non-resolving members as dead and elects the least of the rest |
| Multiblock.Controller.PruneVisit | erogenousbeef/core/multiblock/MultiblockControllerBase.java:811-819 | one step of the scan keeps the reference least over the positions seen so far |
| Multiblock.Controller.Separate | erogenousbeef/core/multiblock/MultiblockControllerBase.java:830-885 | from a resolving reference, the flood and the sweep keep exactly the members reachable from it and return the rest as unattached parts |
| Multiblock.Controller.FloodMembers | erogenousbeef/core/multiblock/MultiblockControllerBase.java:832-855 | after the flood, a member is visited exactly when a same-controller path reaches it from the reference |
| Multiblock.Controller.Flood | erogenousbeef/core/multiblock/MultiblockControllerBase.java:838-855 | the BFS visits the start and every same-controller neighbour of a reached part, every reached part has a path from the start, and unreached parts keep their flag |
| Multiblock.Controller.FloodStep | erogenousbeef/core/multiblock/MultiblockControllerBase.java:839-854 | one dequeue marks the head and enqueues exactly its unvisited same-controller neighbours |
| Multiblock.Controller.VisitNeighbours | erogenousbeef/core/multiblock/MultiblockControllerBase.java:844-854 | the neighbour loop marks and enqueues exactly the unvisited same-controller neighbours |
| Multiblock.Controller.Sweep | erogenousbeef/core/multiblock/MultiblockControllerBase.java:858-879 | the visited members remain and the unvisited ones are detached and returned |
| Multiblock.Controller.SweepScan | erogenousbeef/core/multiblock/MultiblockControllerBase.java:861-876 | the sweep loop collects exactly the unvisited members and detaches their parts, and fails only when one of them belongs elsewhere |
| Multiblock.RouteStaysIn | erogenousbeef/core/multiblock/MultiblockControllerBase.java:838-855 | a same-controller path from the start never leaves a set closed under same-controller neighbours |
| Multiblock.ReachedIsClosed | erogenousbeef/core/multiblock/MultiblockControllerBase.java:838-876 | once the flood is closed, every part on a same-controller path from the start was reached |
| Multiblock.LeastResolving | erogenousbeef/core/multiblock/MultiblockControllerBase.java:223-240 | the re-election loop finds no coordinate exactly when no member resolves, and otherwise finds the least resolving member |
| Multiblock.Part.constructor | erogenousbeef/core/multiblock/MultiblockTileEntityBase.java:37-44 | a new part is unattached, unvisited and not the save delegate |
| Multiblock.Part.SetVisited | erogenousbeef/core/multiblock/MultiblockTileEntityBase.java:358-360 | afterwards `isVisited` holds |
| Multiblock.Part.SetUnvisited | erogenousbeef/core/multiblock/MultiblockTileEntityBase.java:353-355 | afterwards `isVisited` is false |
| Multiblock.Part.BecomeSaveDelegate | erogenousbeef/core/multiblock/MultiblockTileEntityBase.java:340-342 | the save flag is set |
| Multiblock.Part.ForfeitSaveDelegate | erogenousbeef/core/multiblock/MultiblockTileEntityBase.java:345-347 | the save flag is cleared |
| Multiblock.Part.OnAttached | erogenousbeef/core/multiblock/MultiblockTileEntityBase.java:374-376 | the controller becomes the given one, so the part is connected |
| Multiblock.Part.OnMergedIntoOtherMultiblock | erogenousbeef/core/multiblock/MultiblockTileEntityBase.java:368-371 | the controller becomes the new one |
| Multiblock.Part.OnDetached | erogenousbeef/core/multiblock/MultiblockTileEntityBase.java:379-388 | passes exactly when the part is attached to the given controller, leaving it unconnected; otherwise it throws the null or wrong-controller exception and keeps its controller |
| Multiblock.Part.AssertDetached | erogenousbeef/core/multiblock/MultiblockWorldRegistry.java:243 | afterwards the part is unconnected |
| Multiblock.Part.GetNeighboringParts | erogenousbeef/core/multiblock/MultiblockTileEntityBase.java:397-422 | the loop returns, in neighbour order, the parts at the six face neighbours whose chunk is loaded |
| Multiblock.LoadedPartsMembers | erogenousbeef/core/multiblock/MultiblockTileEntityBase.java:407-421 | a part is listed exactly when it lies at one of the given positions in a loaded chunk |
| Multiblock.NeighbouringPartsExactly | erogenousbeef/core/multiblock/MultiblockTileEntityBase.java:397-422 | the neighbouring parts are exactly the face-adjacent parts in loaded chunks |
| Multiblock.Part.CreateNewMultiblock | erogenousbeef/core/multiblock/MultiblockTileEntityBase.java:391-394 | a fresh controller of the part's class owns exactly this position, with it as reference and delegate, and is marked dirty |
| Multiblock.DistinctControllers | erogenousbeef/core/multiblock/MultiblockTileEntityBase.java:62-66 | the collection loop keeps its initial list as prefix, lists no controller twice, and lists exactly the initial ones plus the neighbours' controllers |
| Multiblock.OwnersListed | erogenousbeef/core/multiblock/MultiblockTileEntityBase.java:62-66 | the collected controllers are the initial ones plus exactly the controllers of the connected neighbours |
| Multiblock.SelectTarget | erogenousbeef/core/multiblock/MultiblockTileEntityBase.java:74-92 | the chosen candidate has a reference strictly less than every other candidate's; with references all present and distinct the selection never throws; it throws only the null reference or identical-reference exception |
| Multiblock.ReferenceAfter | erogenousbeef/core/multiblock/MultiblockControllerBase.java:127-140 | the reference after an attach is the part's position or the old reference, and no greater than either |
| Multiblock.Part.AttachToNeighbors | erogenousbeef/core/multiblock/MultiblockWorldRegistry.java:119 | with no neighbouring controllers it returns none and changes nothing; otherwise it returns the distinct neighbouring controllers, the part joined the one with the least reference, whose members gained the position, and that one is dirty; with distinct resolving references it cannot throw |
| Multiblock.Part.AttachToLeast | erogenousbeef/core/multiblock/MultiblockTileEntityBase.java:69-97 | selects the least-reference controller, attaches to it and marks it dirty |
| Multiblock.Part.OnBlockAdded | erogenousbeef/core/multiblock/MultiblockTileEntityBase.java:54-111 | with no neighbouring controllers the part founds a fresh machine of its own, as its reference and delegate; otherwise it joins the neighbouring controller whose reference was strictly least, whose reference becomes the lesser of its own and the part's position, and whose members gain the position and every former member of the other neighbouring controllers that holds a part; those parts point at it, and the others end empty with a null reference; with references present, resolving and distinct it cannot throw |
| Multiblock.Part.JoinLeast | erogenousbeef/core/multiblock/MultiblockTileEntityBase.java:69-107 | selection, attach and merge of `onBlockAdded` with at least one candidate: the part ends on the candidate with the strictly least recorded reference, which gains the position and the held former members of the others, with the reference after the attach; those parts point at it and the others are emptied |
| Multiblock.Part.AttachAndMerge | erogenousbeef/core/multiblock/MultiblockTileEntityBase.java:96-107 | the part attaches to the target, whose reference becomes the lesser of its own and the part's position; the target's members gain the position and every former member of the other candidates that holds a part; those parts point at the target, and every other candidate ends empty with a null reference; a target with no reference or a resolving one always passes |
| Multiblock.Part.OnOrphaned | erogenousbeef/core/multiblock/MultiblockTileEntityBase.java:425-463 | throws and changes nothing when connected; otherwise a fresh controller is made dirty, only unconnected parts change owner, its members are exactly the parts pointing at it with the least as reference, and every part reachable through unconnected neighbours is attached to it |
| Multiblock.EnqueueUnconnected | erogenousbeef/core/multiblock/MultiblockTileEntityBase.java:455-461 | the enqueue loop appends exactly the unconnected neighbours, keeping the queue as prefix |
| Multiblock.AdoptionComplete | erogenousbeef/core/multiblock/MultiblockTileEntityBase.java:445-462 | once the flood queue is empty the new controller's members are exactly its parts, and every neighbour path from it stays within it |
| Multiblock.PathsStayAttached | erogenousbeef/core/multiblock/MultiblockTileEntityBase.java:425-463 | a neighbour path through the once-unconnected parts, starting at the controller, ends at one of its parts |
| Multiblock.AdoptStep | erogenousbeef/core/multiblock/MultiblockTileEntityBase.java:445-462 | one dequeue of the flood fill keeps the adoption invariant, changes the owner only of unattached parts (to the new controller), and either connects one more part or leaves a shorter queue |
| Multiblock.AdoptHead | erogenousbeef/core/multiblock/MultiblockTileEntityBase.java:445-461 | the attaching turn connects the head to the new controller and removes exactly it from the unattached parts, keeping the adoption invariant |
| Multiblock.Part.ClientCheckForMerges | erogenousbeef/core/multiblock/MultiblockTileEntityBase.java:490-569 | when the only controller found is the part's own it returns without changing anything; an unconnected part with no neighbouring controllers founds a fresh machine holding its position (which then floods over unconnected neighbours); otherwise the part ends on the candidate whose recorded reference was strictly least, which gains the part's position if the part moved and every former member of the other candidates that holds a part; those parts point at it and the other candidates end empty |
| Multiblock.Part.Rejoin | erogenousbeef/core/multiblock/MultiblockTileEntityBase.java:514-564 | the part ends on the candidate with the strictly least recorded reference, which gains the position if the part moved and the held former members of the other candidates; those parts point at it and the other candidates end empty |
| Multiblock.Part.MoveTo | erogenousbeef/core/multiblock/MultiblockTileEntityBase.java:545-551 | the part leaves its own controller with a chunk-unload detach, which takes exactly its position from that controller, and attaches to the target, which gains exactly the position |
| Multiblock.Part.SettleOn | erogenousbeef/core/multiblock/MultiblockTileEntityBase.java:553-563 | once the part is on the least candidate, the merge loop over the others ends as `Rejoin` promises: the target gains the held former members of the others, those parts point at it, and the others are empty |
| Multiblock.HoldingsBound | erogenousbeef/core/multiblock/MultiblockTileEntityBase.java:545-551 | after the move, the candidates other than the target hold what was recorded for them, less at most the part's own position |
| Multiblock.RejoinSettles | erogenousbeef/core/multiblock/MultiblockTileEntityBase.java:543-563 | a target that the selection elected, holding its record, the part if it moved and the held part of what the others held (less at most the part's position), with those parts pointing at it and the others empty, is the outcome `Rejoin` promises |
| Multiblock.LoneRejoined | erogenousbeef/core/multiblock/MultiblockTileEntityBase.java:509-512 | a part whose own controller is the only one found has already settled on it |
| Multiblock.ChosenLeast | erogenousbeef/core/multiblock/MultiblockTileEntityBase.java:74-92 | a candidate whose reference is below every other candidate's is the one elected by the recorded references |
| Multiblock.JoinSettles | erogenousbeef/core/multiblock/MultiblockTileEntityBase.java:96-107 | the attach and the merge together give the outcome `onBlockAdded` promises: the elected target holds its record, the position and the held former members of the others, with the reference after the attach, those parts point at it and the others are emptied |
| Multiblock.Part.DetachSelf | erogenousbeef/core/multiblock/MultiblockTileEntityBase.java:480-485 | afterwards the part is unconnected; unconnected before means nothing else changed; otherwise the old controller lost the position, paused on an unloading detach of an Assembled machine, and is dead if empty, dirty if not |
| Multiblock.Part.Invalidate | erogenousbeef/core/multiblock/MultiblockTileEntityBase.java:152-156 | the part detaches without pausing its machine |
| Multiblock.Part.OnChunkUnloaded | erogenousbeef/core/multiblock/MultiblockTileEntityBase.java:161-163 | the part detaches as an unloading detach, pausing an Assembled machine |
| Multiblock.ElectMaster | erogenousbeef/core/multiblock/MultiblockWorldRegistry.java:165-171 | the elected master is in the pool, of the same class as every other member and with a strictly smaller reference than each; with distinct references of one class the election succeeds |
| Multiblock.ParkAdds | erogenousbeef/core/multiblock/MultiblockWorldRegistry.java:259-274 | parking adds exactly the part to the waiting parts and keeps each bucket non-empty and keyed by its own chunk |
| Multiblock.UnparkRemoves | erogenousbeef/core/multiblock/MultiblockWorldRegistry.java:290-302 | striking a part removes exactly it from the waiting parts and drops a bucket left empty |
| Multiblock.BucketIsItsChunk | erogenousbeef/core/multiblock/MultiblockWorldRegistry.java:345-352 | the bucket under a chunk's key holds exactly the waiting parts in that chunk |
| Multiblock.ParkedUntilItsChunkLoads | erogenousbeef/core/multiblock/MultiblockWorldRegistry.java:259-274 | a parked part is released by the load of its own chunk and of no other |
| Multiblock.Registry.constructor | erogenousbeef/core/multiblock/MultiblockWorldRegistry.java:52-65 | every set and the waiting map start empty |
| Multiblock.Registry.AddDeadController | erogenousbeef/core/multiblock/MultiblockWorldRegistry.java:364-367 | the dead set gains the controller |
| Multiblock.Registry.AddDirtyController | erogenousbeef/core/multiblock/MultiblockWorldRegistry.java:375-377 | the dirty set gains the controller |
| Multiblock.Registry.OnPartAdded | erogenousbeef/core/multiblock/MultiblockWorldRegistry.java:256-281 | a part in an unloaded chunk is parked under its chunk key, and one in a loaded chunk becomes an orphan |
| Multiblock.Registry.OnPartRemovedFromWorld | erogenousbeef/core/multiblock/MultiblockWorldRegistry.java:288-313 | the part leaves its bucket (and an emptied bucket its key), the detached and the orphan set, and ends unconnected |
| Multiblock.Registry.Unbucket | erogenousbeef/core/multiblock/MultiblockWorldRegistry.java:290-303 | the bucket bookkeeping of a removal |
| Multiblock.Registry.OnWorldUnloaded | erogenousbeef/core/multiblock/MultiblockWorldRegistry.java:319-335 | every set and the waiting map are cleared |
| Multiblock.Registry.OnChunkLoaded | erogenousbeef/core/multiblock/MultiblockWorldRegistry.java:345-355 | the chunk's bucket moves to the orphans and its key is deleted; the orphans gained are exactly the waiting parts in that chunk |
| Multiblock.Registry.TickStart | erogenousbeef/core/multiblock/MultiblockWorldRegistry.java:71-90 | exactly the empty registered controllers are added to the dead set, and game logic runs for exactly the non-empty, assembled ones |
| Multiblock.Registry.AttachOrphan | erogenousbeef/core/multiblock/MultiblockWorldRegistry.java:117-127 | the orphan joins its least-reference neighbouring controller, or, with none, a new controller that owns just it is created and registered; the result is the neighbouring controllers, and the joined controller is dirty |
| Multiblock.Registry.OrphanStep | erogenousbeef/core/multiblock/MultiblockWorldRegistry.java:110-151 | an orphan in an unloaded chunk is skipped and changes nothing; otherwise it is adopted as in `AttachOrphan`, new controllers are created only when no neighbour had one, and more than one neighbouring controller is gathered into the merge pools, which stay disjoint, non-empty and registered |
| Multiblock.Registry.TakeOrphan | erogenousbeef/core/multiblock/MultiblockWorldRegistry.java:110-151 | one orphan step as the orphan pass sees it: registered controllers grow by exactly the created ones, a skipped orphan keeps its controller, a loaded orphan ends connected, the pools stay disjoint and registered, and only known or created controllers are marked dirty |
| Multiblock.Registry.ProcessOrphans | erogenousbeef/core/multiblock/MultiblockWorldRegistry.java:102-154 | registered controllers grow by exactly the new ones, every orphan in a loaded chunk ends connected, skipped orphans keep their controller, the pools are disjoint and registered, and the orphan set is cleared |
| Multiblock.Registry.Absorb | erogenousbeef/core/multiblock/MultiblockWorldRegistry.java:180-183 | the controller with the greater reference is assimilated into the master: the master gains exactly its former members that hold a part, those parts point at the master, no part moves anywhere else, and the absorbed controller ends empty with a null reference and is marked dead |
| Multiblock.Registry.MergePool | erogenousbeef/core/multiblock/MultiblockWorldRegistry.java:163-185 | the master is in the pool and its recorded reference is strictly less than every other member's; it is marked dirty, keeps its reference and gains exactly the former members of the others that hold a part, which now point at it; every other member is emptied and marked dead; an electable pool always merges, and a failed election marks nothing |
| Multiblock.Registry.ProcessMerges | erogenousbeef/core/multiblock/MultiblockWorldRegistry.java:158-187 | each pool gets a master from that pool whose recorded reference is strictly less than every other member's; it keeps its reference and gains exactly the former members of the rest of its pool that hold a part; exactly the masters are marked dirty, exactly the other pooled controllers are emptied and marked dead, and electable pools always merge |
| Multiblock.Registry.AbsorbNext | erogenousbeef/core/multiblock/MultiblockWorldRegistry.java:179-184 | one turn of the merge loop absorbs one more pool member into the master and marks it dead; the master then holds its record plus the held former members of all members done so far, those parts point at it, the done members are empty, and the rest are as recorded |
| Multiblock.Registry.AbsorbedAll | erogenousbeef/core/multiblock/MultiblockWorldRegistry.java:176-185 | once every other member is done, the pool has been merged into its master |
| Multiblock.Registry.MergeNext | erogenousbeef/core/multiblock/MultiblockWorldRegistry.java:163-185 | merging pool i elects its master, marks it dirty and the rest dead and emptied, and keeps what the masters of the earlier pools gained; any given controllers outside the pool keep their members and reference |
| Multiblock.Registry.MergeRound | erogenousbeef/core/multiblock/MultiblockWorldRegistry.java:163-186 | a turn of the pool loop adds pool i to the merged pools and its master to the masters, keeping the merge progress and the tally of dirty and dead controllers; an electable pool always passes |
| Multiblock.Registry.ProgressAdvance | erogenousbeef/core/multiblock/MultiblockWorldRegistry.java:163-186 | after pool i is merged, the merge progress holds for the first i + 1 pools |
| Multiblock.Registry.MergesStart | erogenousbeef/core/multiblock/MultiblockWorldRegistry.java:158-163 | before the first pool nothing is merged and every pooled controller is as recorded |
| Multiblock.Registry.MergesDone | erogenousbeef/core/multiblock/MultiblockWorldRegistry.java:163-187 | after the last pool the merged controllers are all pooled controllers, and the masters are among them |
| Multiblock.Registry.MergedIntoAgree | erogenousbeef/core/multiblock/MultiblockWorldRegistry.java:163-185 | whether a pool was merged into its master depends only on what the record says about that pool's controllers |
| Multiblock.Registry.ElectableRecorded | erogenousbeef/core/multiblock/MultiblockWorldRegistry.java:165-171 | pools that can be elected on the live references can be elected on the recorded ones |
| Multiblock.Registry.EmptiedUnion | erogenousbeef/core/multiblock/MultiblockWorldRegistry.java:163-185 | the controllers emptied by two pools together are emptied |
| Multiblock.Registry.MergeAdvances | erogenousbeef/core/multiblock/MultiblockWorldRegistry.java:163-185 | merging one more pool adds its master to the masters and the rest of the pool to the controllers that are not masters |
| Multiblock.Registry.ElectedInOrder | erogenousbeef/core/multiblock/MultiblockWorldRegistry.java:163-171 | appending the next pool's master keeps each master in the pool of its index |
| Multiblock.Registry.SplitStep | erogenousbeef/core/multiblock/MultiblockWorldRegistry.java:194-212 | a dirty controller only loses members; shed parts go to the detached set; it is marked dead exactly when it ends empty, and is revalidated otherwise |
| Multiblock.Registry.ProcessDirty | erogenousbeef/core/multiblock/MultiblockWorldRegistry.java:192-216 | the dirty set is emptied; dead grows by exactly the dirty controllers left empty; shed parts go to detached, not to orphans; every dirty controller only lost members and was revalidated |
| Multiblock.Registry.ProcessDead | erogenousbeef/core/multiblock/MultiblockWorldRegistry.java:219-236 | every dead controller is unregistered and ends empty; a non-empty one first sheds its parts, which are unconnected, into the detached set; the dead set is empty afterwards |
| Multiblock.Registry.ProcessDetached | erogenousbeef/core/multiblock/MultiblockWorldRegistry.java:241-247 | every detached part is unconnected and becomes an orphan, and the detached set is cleared |
| Multiblock.Registry.Gather | erogenousbeef/core/multiblock/MultiblockWorldRegistry.java:102-187 | the orphan pass then the merge pass: the orphan set is cleared, the registered controllers grow by exactly the created ones, and only known or created controllers are dirty or dead |
| Multiblock.Registry.Settle | erogenousbeef/core/multiblock/MultiblockWorldRegistry.java:192-247 | the split, dead and detached passes: the dirty, dead and detached sets end empty, the orphans gain exactly the detached parts, old and newly shed, all unattached, and every controller unregistered here is empty |
| Multiblock.Registry.TickEnd | erogenousbeef/core/multiblock/MultiblockWorldRegistry.java:96-248 | at the end of the tick the dirty, dead and detached sets are empty, the waiting map is untouched, the orphan set holds exactly the parts detached during the tick (all unconnected), every registered controller is an old or a newly created one, and every controller unregistered during the tick is empty |

## Left out

- NBT persistence and cached save data are not modelled: `readFromNBT`,
  `writeToNBT`, `cachedMultiblockData`, `onAttachedPartWithMultiblockData`,
  `getOrphanData`, `restore`, and the save-data branch of `attachBlock`
  (MultiblockControllerBase.java:121-125). They are an external format.
  For the same reason `onChunkLoad` and `validate` (MultiblockTileEntityBase.java:179-218)
  are not modelled: they restore cached data and register parts through the
  static registry.
- Network packets (`getDescriptionPacket`, `onDataPacket`, the description
  packet encoders, `sendUpdatePacket`) are wire plumbing.
- The `synchronized` blocks, the mutexes and the double-checked emptiness
  tests around them are not modelled. The registry is single-threaded state,
  and `addOrphanedPartThreadsafe` and `addAllOrphanedPartsThreadsafe` are
  plain set additions.
- `updateServer`, `updateClient` and the chunk-modified marking loop
  (MultiblockControllerBase.java:576-596) are game logic. Only the empty guard
  and the "not Assembled" guard are kept.
- Logging (`FMLLog`, `debugLog`) is not modelled. Abstract lifecycle hooks are
  either recorded as events (assembled, restored, paused, disassembled) or
  omitted, for example `onBlockAdded`/`onBlockRemoved` on the controller,
  `onMachineAssembled` on parts, and `onAssimilate`.
- `MultiblockRegistry.java` (the static per-world singleton) is not part of
  this model. Its calls become a registry parameter.
- The Forge glue (`MultiblockEventHandler.java`, `MultiblockTickHandler.java`,
  `BlockMultiblockBase.java`) is not modelled, and neither is `PowerProviderBeef.java`
  (floating point over a library class). The test mod contributes only its
  limits (`TestLimits`).
- A tile entity that is not a multiblock part is treated as no part at all.
  The `ClassCastException` (MultiblockControllerBase.java:830) and the
  part-less `NullPointerException` paths that such entities can cause are not modelled.
- The wrong-world check in `tickStart` (MultiblockWorldRegistry.java:74, 85-87)
  is not modelled: a registry holds controllers of its own world only.
- `worldObj = null` in `onWorldUnloaded` (MultiblockWorldRegistry.java:334) and
  the `worldObj == null` early return of `detachAllBlocks` are not modelled,
  since the world is a parameter.
- The `coord != null` test in `onPartRemovedFromWorld` always holds, so only
  its true branch is modelled.
- The "no master candidates" branch (MultiblockWorldRegistry.java:173-174)
  is unreachable: merge pools are never empty. `ProcessMerges` requires this,
  and it holds for the pools `ProcessOrphans` builds.
- The `size() > 0` guards around the tickEnd passes are not modelled, since
  each pass does nothing on empty sets.
- When a deliberate exception is thrown part-way through a pass (for example,
  two neighbouring controllers with the same reference), it is returned as
  `Fail`. The state reached so far is kept, and the postconditions speak only
  of the `Pass` outcome.
- The `assert` statements (MultiblockTileEntityBase.java:94, 369) are Java
  assertions that are normally disabled, so they are not modelled.
- Multiblock.Registry.TickEnd: states controllers ⊆ old + new, and does not
  say that the controllers left registered are exactly the old and new ones
  not marked dead, because that exact set is stated one pass at a time (by
  `ProcessOrphans` and `ProcessDead`).
- Multiblock.Part.ClientCheckForMerges: for the merge case it states that
  the part ends on the candidate with the least recorded reference, what that
  candidate gains and that the other candidates are emptied. It does not
  state the target's reference after the move, nor the references the other
  candidates are left with (one skipped as empty keeps its own).
- Multiblock.Registry.AttachOrphan: a second `attachBlock` of the orphan in
  its new controller is not modelled. Run literally, it would find the
  position already the reference, take the `else` branch at
  MultiblockControllerBase.java:138-140, and the lone orphan would forfeit
  its save-delegate flag.
- Multiblock.Registry.ProcessMerges: that the absorbed parts point at their
  master is stated per pool (by `MergePool`), not carried across the later
  pools of the pass.
- Multiblock.Controller.RevalidateAsWritten: states only its verdict and its
  final box; it does not state the assembly transition that follows from
  that verdict.
- Multiblock.Registry.OrphanStep: the merge pools follow the corrected
  `Pools.AddToPools`, not the code as written (see Findings).
- Multiblock.Registry.SplitStep: revalidates with the corrected order
  (`Controller.Revalidate`), not the code as written (see Findings).
- `onChunkLoaded` keys buckets with `chunkXZ2Int`, while `onPartAdded` and
  `onPartRemovedFromWorld` call `getChunkXZHash`, which is not defined in the
  source. All three use the same key function `ChunkKey`.

## Findings

| source | as written | input that shows it | evidently intended | confidence | as-written member | corrected member |
|---|---|---|---|---|---|---|
| erogenousbeef/core/multiblock/MultiblockWorldRegistry.java:128-148 | a set of more than one compatible controllers is added to the FIRST merge pool it meets, even when it also meets later pools | pools {1,2} and {3,4}, then an orphan touching controllers {2,3}: the pools become {1,2,3} and {3,4}, so controller 3 sits in two pools, and the second pool's election compares against a controller the first merge already emptied | every pool the set meets is joined into one, so the pools stay disjoint and each controller is merged once | medium, not executed | Pools.AddToFirstPool (shown by Pools.FirstMeetCanOverlap) | Pools.AddToPools (proved by Pools.GatheredProperties and Pools.GatheringJoinsTheExample) |
| erogenousbeef/core/multiblock/MultiblockWorldRegistry.java:201-203 | a dirty controller is validated by `checkIfMachineIsWhole` BEFORE `recalculateMinMaxCoords`, so it is judged against the previous bounding box | a fresh controller (box (0,0,0)) that owns a lone frame-accepting part at (100, 64, 100), under the test mod's limits: the stale box's only cell is empty and is refused | bounds are recomputed first, so the machine is judged against its own box, and the lone part is whole | medium, not executed | Multiblock.Controller.RevalidateAsWritten (shown by Validation.StaleBoxRefusesLonePart) | Multiblock.Controller.Revalidate (proved by Validation.LonePartIsWhole) |
