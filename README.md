# Spatial grid inventory — a verified Dafny model

This project models the server-side core of the OWRPG grid inventory. An
inventory manager component keeps a list of entries. Each entry is an item
instance placed with its top-left cell at (X, Y), either as it is or turned a
quarter. The component also keeps one optional item held on the cursor. On top
of that state it runs:

- the rectangle queries: item footprint, half-open overlap, the row-major
  first-free-slot scan;
- auto-loot (`AddItemDefinition`): first it tops up existing stacks, then it
  creates new stacks at free slots, and whatever finds no slot goes to the
  world;
- cross-container transfer (`ServerTransferFrom`): the drop target is
  classified as place, stack, swap or nothing;
- the cursor actions: pickup, place or exchange, split, drop from the cursor or
  from the grid, and equip.

It also models the function library that the manager relies on. That library
holds the first-match fragment search, the stack-count helpers with their
guards and defaults, the max-stack lookup and the trait queries.

Files, one module each:

- `wrappers.dfy` (`Wrappers`): `Option`, standing in for null pointers and "not
  found".
- `items.dfy` (`Items`): fragments, item definitions (objects compared by
  identity, like the engine's definition classes) and item instances. An
  instance is an object with a mutable integer stack count, in place of the
  gameplay-tag stack that the source reaches by reflection.
- `function_library.dfy` (`InventoryFunctionLibrary`): the library functions.
- `grid.dfy` (`Grid`): footprints, rectangles, the overlap query, entry lookup
  and removal, and the layout invariant (`WellPlaced`) with the lemmas that
  show each list edit keeps it.
- `stacking.dfy` (`Stacking`): stack arithmetic, the first auto-loot pass as a
  specification function (`TopUp`) and its conservation lemmas.
- `inventory_manager.dfy` (`InventoryManager`): the component as a class with
  `entries`, `cursor` and the world-sink log `spawned`. It also holds the
  value-level "keeps the invariant" lemmas and the specification functions
  `TransferOf`, `MoveOutcome` and `PickupOutcome`.

The component invariant `Valid()` says four things:

- every entry holds an item and lies inside `[0,Columns)×[0,Rows)`;
- no two entries overlap or hold the same item;
- the cursor item is not also an entry;
- every held stack count is in `1..MaxStack`.

Every state-changing method keeps `Valid()`. Each one also states how the held
quantity `Total()` changes, together with what went to the world sink
(`SpawnedCount(spawned)`). Cross-container methods keep the two components
from holding the same instance (`Disjoint`).

Behaviour of the code worth knowing:

- There is no occupancy tile cache. Overlaps are found by scanning the entry
  list, and an item counts once because no item is held twice
  (`Grid.GetItemsInRectDistinct`).
- A split puts the new stack on the cursor, not at a free slot.
- A transfer whose source is the component itself only acts on the cursor item
  (`ServerAttemptMove`). A grid-to-grid move within one container therefore
  changes nothing.
- Placing the cursor item over one stack always exchanges the two, even when
  both have the same definition. The cursor path never merges stacks, so
  "split, then merge back" is not available through it.
- Only `AddItemDefinition` tests authority. The `Server…` calls run on the
  server because they are remote calls, so the model gives them no authority
  flag.

## Model

| member | source | states |
|---|---|---|
| `InventoryFunctionLibrary.FindItemDefinitionFragment` | Source/OWRPGRuntime/Private/Inventory/OWRPGInventoryFunctionLibrary.cpp:20-33 | null definition or null class gives null; a found fragment is of the requested class |
| `InventoryFunctionLibrary.FirstIndexOfClass` | Source/OWRPGRuntime/Private/Inventory/OWRPGInventoryFunctionLibrary.cpp:24-30 | the index found holds a non-null fragment of the class and no earlier one does; none found means no slot is of the class |
| `InventoryFunctionLibrary.FindItemDefinitionFragmentIsFirstMatch` | Source/OWRPGRuntime/Private/Inventory/OWRPGInventoryFunctionLibrary.cpp:20-33 | the search finds nothing iff no fragment is of the class; otherwise it returns a fragment of the list with no fragment of the class before it |
| `InventoryFunctionLibrary.GetItemStatsStackCount` | Source/OWRPGRuntime/Private/Inventory/OWRPGInventoryFunctionLibrary.cpp:37-56 | 0 for no item, 1 when the stack accessor is missing, otherwise the item's stack count |
| `InventoryFunctionLibrary.HasItemStatsStack` | Source/OWRPGRuntime/Private/Inventory/OWRPGInventoryFunctionLibrary.cpp:58-74 | true iff there is an item, the accessor exists and the stack is positive |
| `InventoryFunctionLibrary.AddItemStatsStack` | Source/OWRPGRuntime/Private/Inventory/OWRPGInventoryFunctionLibrary.cpp:76-90 | the count grows by n only for an item, n > 0 and an existing accessor; otherwise it is unchanged |
| `InventoryFunctionLibrary.RemoveItemStatsStack` | Source/OWRPGRuntime/Private/Inventory/OWRPGInventoryFunctionLibrary.cpp:92-106 | a no-op for no item, n ≤ 0 or a missing accessor; otherwise the count drops by n, or to 0 when n covers it |
| `InventoryFunctionLibrary.HasTrait` | Source/OWRPGRuntime/Private/Inventory/OWRPGInventoryFunctionLibrary.cpp:110-122 | false for a null definition or an invalid tag or without a traits fragment; otherwise exact or hierarchical membership in the first traits fragment, as `exact` says |
| `InventoryFunctionLibrary.InstanceHasTrait` | Source/OWRPGRuntime/Private/Inventory/OWRPGInventoryFunctionLibrary.cpp:124-136 | false for no instance; otherwise the trait query of the instance's definition |
| `InventoryFunctionLibrary.GetItemCategory` | Source/OWRPGRuntime/Private/Inventory/OWRPGInventoryFunctionLibrary.cpp:138-151 | the first traits fragment's category, otherwise the invalid tag |
| `InventoryFunctionLibrary.GetItemStats` | Source/OWRPGRuntime/Private/Inventory/OWRPGInventoryFunctionLibrary.cpp:155-165 | none for no instance; otherwise the first core-stats fragment of its definition |
| `InventoryFunctionLibrary.GetItemQuantity` | Source/OWRPGRuntime/Private/Inventory/OWRPGInventoryFunctionLibrary.cpp:167-171 | the same value as the stack-count helper: 0 for no item, 1 without an accessor, otherwise the count |
| `InventoryFunctionLibrary.DefinitionMaxStack` | Source/OWRPGRuntime/Private/Inventory/OWRPGInventoryManagerComponent.cpp:144-150 | the first core-stats fragment's MaxStack, otherwise 1 |
| `InventoryFunctionLibrary.GetItemMaxStack` | Source/OWRPGRuntime/Private/Inventory/OWRPGInventoryFunctionLibrary.cpp:183-190 | 1 for no instance; otherwise its definition's MaxStack, defaulting to 1 |
| `InventoryFunctionLibrary.ExactTraitImpliesTrait` | Source/OWRPGRuntime/Private/Inventory/OWRPGInventoryFunctionLibrary.cpp:118 | an exact trait match is also a hierarchical match |
| `InventoryFunctionLibrary.TraitImpliesParentTrait` | Source/OWRPGRuntime/Private/Inventory/OWRPGInventoryFunctionLibrary.cpp:118 | a hierarchical match on a tag also holds for every valid parent tag |
| `Grid.DefinitionSize` | Source/OWRPGRuntime/Public/Inventory/InventoryFragment_Dimensions.h:19-29 | a definition's footprint is at least 1×1 |
| `Grid.GetItemDimensions` | Source/OWRPGRuntime/Private/Inventory/OWRPGInventoryManagerComponent.cpp:82-94 | every footprint is at least 1×1 |
| `Grid.GetItemDimensionsSpec` | Source/OWRPGRuntime/Private/Inventory/OWRPGInventoryManagerComponent.cpp:82-94 | 1×1 for no item or no dimensions fragment, otherwise the first fragment's Width×Height; rotation transposes the footprint, so a square one is unchanged by it |
| `Grid.GetItemsInRect` | Source/OWRPGRuntime/Private/Inventory/OWRPGInventoryManagerComponent.cpp:96-115 | reports at most one item per entry |
| `Grid.GetItemsInRectExact` | Source/OWRPGRuntime/Private/Inventory/OWRPGInventoryManagerComponent.cpp:96-115 | an item is reported iff some non-null, non-excluded entry holding it overlaps the rectangle on both half-open axes |
| `Grid.GetItemsInRectAppend` | Source/OWRPGRuntime/Private/Inventory/OWRPGInventoryManagerComponent.cpp:99-112 | the query distributes over list concatenation, so results come in entry-list order |
| `Grid.GetItemsInRectDistinct` | Source/OWRPGRuntime/Private/Inventory/OWRPGInventoryManagerComponent.cpp:99-112 | on a list with no item twice, no item is reported twice, so counting overlaps counts distinct items |
| `Grid.OverlapsIffSharedCell` | Source/OWRPGRuntime/Private/Inventory/OWRPGInventoryManagerComponent.cpp:106-107 | the half-open interval test holds iff the two rectangles share a cell |
| `Grid.IndexOf` | Source/OWRPGRuntime/Private/Inventory/OWRPGInventoryManagerComponent.cpp:57 | the first index holding the item, or none when no entry holds it |
| `Grid.GetEntry` | Source/OWRPGRuntime/Private/Inventory/OWRPGInventoryManagerComponent.cpp:49-53 | none iff the item is null or not held; otherwise the first entry holding it |
| `Grid.RemoveEntry` | Source/OWRPGRuntime/Private/Inventory/OWRPGInventoryManagerComponent.cpp:55-65 | drops exactly the first entry of the item, or nothing when there is none |
| `Grid.RemoveEntryKeepsLayout` | Source/OWRPGRuntime/Private/Inventory/OWRPGInventoryManagerComponent.cpp:55-65 | removal keeps the layout invariant and takes exactly that item out of the held items |
| `Grid.ReplaceKeepsLayout` | Source/OWRPGRuntime/Private/Inventory/OWRPGInventoryManagerComponent.cpp:366-370 | removing one entry and appending an in-bounds entry that meets nothing else keeps the layout |
| `Grid.AppendKeepsLayout` | Source/OWRPGRuntime/Private/Inventory/OWRPGInventoryManagerComponent.cpp:67-80 | appending an in-bounds entry of a new item over free cells keeps the layout |
| `Grid.InBoundsIffCellsInside` | Source/OWRPGRuntime/Private/Inventory/OWRPGInventoryManagerComponent.cpp:261 | the bounds test the model uses passes exactly when every cell the rectangle covers is a grid cell |
| `Grid.InBoundsAsWrittenAgrees` | Source/OWRPGRuntime/Private/Inventory/OWRPGInventoryManagerComponent.cpp:261 | without `int32` overflow the test as written and the intended test agree, in both directions |
| `Grid.InBoundsAsWrittenAdmitsOutside` | Source/OWRPGRuntime/Private/Inventory/OWRPGInventoryManagerComponent.cpp:401 | with overflow the test as written accepts a footprint that leaves the grid |
| `Grid.Wrap32` | Source/OWRPGRuntime/Private/Inventory/OWRPGInventoryManagerComponent.cpp:261 | an `int32` sum lands in the `int32` range, congruent to the true sum, and equal to it when it fits |
| `Grid.SoleOverlapExcluded` | Source/OWRPGRuntime/Private/Inventory/OWRPGInventoryManagerComponent.cpp:410-417 | when one item is the only overlap, nothing else is under the rectangle |
| `Grid.VacatedRectIsFree` | Source/OWRPGRuntime/Private/Inventory/OWRPGInventoryManagerComponent.cpp:384-391 | the rectangle an entry leaves is in bounds and free of every other entry |
| `Grid.EachAtFirstFreeSlotAt` | Source/OWRPGRuntime/Private/Inventory/OWRPGInventoryManagerComponent.cpp:198-227 | when stacks were appended one by one at first free slots, each one lies at the row-major first free slot of the list as it stood before it |
| `Grid.AppendThenRemove` | Source/OWRPGRuntime/Private/Inventory/OWRPGInventoryManagerComponent.cpp:55-80 | adding then removing a new item gives back the list |
| `Stacking.StackMove` | Source/OWRPGRuntime/Private/Inventory/OWRPGInventoryManagerComponent.cpp:307-310 | nothing moves onto a full stack; otherwise the move fits, never exceeds the amount, and either moves everything or fills the stack |
| `Stacking.TopUpConserves` | Source/OWRPGRuntime/Private/Inventory/OWRPGInventoryManagerComponent.cpp:152-187 | pass 1 conserves quantity: what the stacks gain is what is no longer left to place |
| `Stacking.TopUpBounds` | Source/OWRPGRuntime/Private/Inventory/OWRPGInventoryManagerComponent.cpp:152-187 | pass 1 only raises matching stacks, never past MaxStack, and leaves between 0 and the whole amount |
| `Stacking.TopUpFillsMatching` | Source/OWRPGRuntime/Private/Inventory/OWRPGInventoryManagerComponent.cpp:171-186 | when pass 1 leaves a remainder, every stack of the definition is full |
| `Stacking.WalkStops` | Source/OWRPGRuntime/Private/Inventory/OWRPGInventoryManagerComponent.cpp:156 | stopping the walk early once nothing is left gives the same result as walking the whole list |
| `InventoryManager.MatchesOf` | Source/OWRPGRuntime/Private/Inventory/OWRPGInventoryManagerComponent.cpp:157-159 | an entry takes part in pass 1 iff it holds an instance of the definition |
| `InventoryManager.RemovalKeeps` | Source/OWRPGRuntime/Private/Inventory/OWRPGInventoryManagerComponent.cpp:55-65 | removing an entry keeps the invariant and takes exactly that stack off the total |
| `InventoryManager.ReplaceKeeps` | Source/OWRPGRuntime/Private/Inventory/OWRPGInventoryManagerComponent.cpp:366-370 | replacing one entry by a fitting one keeps the invariant; the total changes by the two stacks |
| `InventoryManager.PickupKeeps` | Source/OWRPGRuntime/Private/Inventory/OWRPGInventoryManagerComponent.cpp:384-391 | moving a held entry to the empty cursor keeps the invariant and the total |
| `InventoryManager.PlaceKeeps` | Source/OWRPGRuntime/Private/Inventory/OWRPGInventoryManagerComponent.cpp:405-409 | placing the cursor item over free in-bounds cells keeps the invariant and the total |
| `InventoryManager.ExchangeKeeps` | Source/OWRPGRuntime/Private/Inventory/OWRPGInventoryManagerComponent.cpp:410-418 | exchanging the cursor item with the single overlapped entry keeps the invariant and the total |
| `InventoryManager.MoveOutcomeKeeps` | Source/OWRPGRuntime/Private/Inventory/OWRPGInventoryManagerComponent.cpp:394-420 | every outcome of a cursor move keeps the invariant and the total |
| `InventoryManager.PlaceThenPickupRestores` | Source/OWRPGRuntime/Private/Inventory/OWRPGInventoryManagerComponent.cpp:384-409 | placing the cursor item on free cells and picking it up again restores list and cursor |
| `InventoryManager.PickupThenPlaceRestores` | Source/OWRPGRuntime/Private/Inventory/OWRPGInventoryManagerComponent.cpp:384-409 | picking up an entry and dropping it at its own cell always succeeds and gives back the same multiset of entries |
| `InventoryManager.SwapStaysApart` | Source/OWRPGRuntime/Private/Inventory/OWRPGInventoryManagerComponent.cpp:354-372 | a swap that passed its checks fits both components, and afterwards they still share no instance |
| `InventoryManager.MoveOverFits` | Source/OWRPGRuntime/Private/Inventory/OWRPGInventoryManagerComponent.cpp:265-272 | a place onto free cells fits this component, and afterwards the two still share no instance |
| `InventoryManager.TransferOf` | Source/OWRPGRuntime/Private/Inventory/OWRPGInventoryManagerComponent.cpp:252-372 | each outcome only in its situation: a move needs a source entry and an in-bounds target; a place needs no overlap; a merge one same-definition overlap; a swap one other-definition overlap whose item fits the mover's original spot and orientation in the source, next to nothing else |
| `InventoryManager.TransferOfComplete` | Source/OWRPGRuntime/Private/Inventory/OWRPGInventoryManagerComponent.cpp:252-372 | the converse: no source entry, out of bounds or two or more overlaps gives no transfer; no overlap gives a place; one same-definition overlap a merge; one other-definition overlap a swap exactly when the back spot fits, otherwise no transfer |
| `InventoryManager.TopUpKeepsStackRange` | Source/OWRPGRuntime/Private/Inventory/OWRPGInventoryManagerComponent.cpp:171-186 | after pass 1 every stack is still in 1..MaxStack |
| `InventoryManager.InventoryManagerComponent.constructor` | Source/OWRPGRuntime/Private/Inventory/OWRPGInventoryManagerComponent.cpp:25-30 | an empty grid with an empty cursor is valid |
| `InventoryManager.InventoryManagerComponent.InternalRemoveItem` | Source/OWRPGRuntime/Private/Inventory/OWRPGInventoryManagerComponent.cpp:55-65 | reports whether an entry held the item and removes the first such entry |
| `InventoryManager.InventoryManagerComponent.InternalAddItemInstance` | Source/OWRPGRuntime/Private/Inventory/OWRPGInventoryManagerComponent.cpp:67-80 | appends the entry unless the item is null; reports which |
| `InventoryManager.InventoryManagerComponent.FindFreeSlot` | Source/OWRPGRuntime/Private/Inventory/OWRPGInventoryManagerComponent.cpp:117-134 | succeeds iff some unrotated in-bounds position is free, and then returns the first one scanning y outer, x inner |
| `InventoryManager.InventoryManagerComponent.SpawnItemInWorld` | Source/OWRPGRuntime/Private/Inventory/OWRPGInventoryManagerComponent.cpp:521-550 | records (definition, count) in the world sink and changes nothing else |
| `InventoryManager.InventoryManagerComponent.TopUpItem` | Source/OWRPGRuntime/Private/Inventory/OWRPGInventoryManagerComponent.cpp:159-186 | a stack of the definition below MaxStack takes min(remaining, room); any other stack takes nothing |
| `InventoryManager.InventoryManagerComponent.TopUpPass` | Source/OWRPGRuntime/Private/Inventory/OWRPGInventoryManagerComponent.cpp:154-187 | the pass-1 loop ends with the counts and remainder of the specification walk |
| `InventoryManager.InventoryManagerComponent.TopUpStacks` | Source/OWRPGRuntime/Private/Inventory/OWRPGInventoryManagerComponent.cpp:144-187 | pass 1 leaves every stack at its `TopUp` count, keeps the invariant and conserves quantity |
| `InventoryManager.InventoryManagerComponent.NewStack` | Source/OWRPGRuntime/Private/Inventory/OWRPGInventoryManagerComponent.cpp:202-219 | a fresh instance of the definition holding exactly the share |
| `InventoryManager.InventoryManagerComponent.PlaceNewStack` | Source/OWRPGRuntime/Private/Inventory/OWRPGInventoryManagerComponent.cpp:200-227 | a new stack goes unrotated to the row-major first free slot, or nothing changes when no slot is free; the stacks placed so far stay each at the first free slot of its time |
| `InventoryManager.InventoryManagerComponent.AppendStack` | Source/OWRPGRuntime/Private/Inventory/OWRPGInventoryManagerComponent.cpp:224 | appending a new stack at a free slot keeps the layout and adds its count |
| `InventoryManager.InventoryManagerComponent.PlaceStacks` | Source/OWRPGRuntime/Private/Inventory/OWRPGInventoryManagerComponent.cpp:198-233 | pass 2 appends unrotated stacks of min(left, MaxStack), all full but the last, each at the row-major first free slot of the list before it; it stops with a remainder only when no slot is free |
| `InventoryManager.InventoryManagerComponent.CreateStacks` | Source/OWRPGRuntime/Private/Inventory/OWRPGInventoryManagerComponent.cpp:195-235 | the new stacks as in pass 2, each at the first free slot of its time; the remainder that found no slot goes to the world sink in one request; added plus spilled equals the amount |
| `InventoryManager.InventoryManagerComponent.AddNewStacks` | Source/OWRPGRuntime/Private/Inventory/OWRPGInventoryManagerComponent.cpp:195-235 | pass 2 keeps the invariant, places its stacks as above, and what is held plus what is spawned grows by exactly the amount |
| `InventoryManager.InventoryManagerComponent.AddStacks` | Source/OWRPGRuntime/Private/Inventory/OWRPGInventoryManagerComponent.cpp:144-235 | both passes: old stacks end at their `TopUp` counts, new full stacks follow each at the first free slot of its time, overflow is spawned only when no slot is free, quantity is conserved; false only when pass 2 placed nothing |
| `InventoryManager.InventoryManagerComponent.AddItemDefinition` | Source/OWRPGRuntime/Private/Inventory/OWRPGInventoryManagerComponent.cpp:140-236 | without authority, without a definition or for a count ≤ 0: false and no change; otherwise exactly the effect of both passes: `TopUp` counts, new stacks at first free slots, the single spill, and false only when pass 2 placed nothing |
| `InventoryManager.InventoryManagerComponent.DebugAddItem` | Source/OWRPGRuntime/Private/Inventory/OWRPGInventoryManagerComponent.cpp:378-381 | the same guard and the same effect on the inventory as auto-loot, the result discarded |
| `InventoryManager.InventoryManagerComponent.ServerTransferFrom` | Source/OWRPGRuntime/Private/Inventory/OWRPGInventoryManagerComponent.cpp:243-374 | no change without a source or an item; within one component it is the cursor move and no stack count changes; across components it applies `TransferOf`, may change only the two stacks of a merge, and keeps the invariants and the joint total |
| `InventoryManager.InventoryManagerComponent.TransferAcross` | Source/OWRPGRuntime/Private/Inventory/OWRPGInventoryManagerComponent.cpp:252-373 | the two lists end as `TransferOf` says for each branch; only a merge changes counts, and only those of the mover and its destination; both components stay valid and disjoint, and the joint total is conserved |
| `InventoryManager.InventoryManagerComponent.TransferPlace` | Source/OWRPGRuntime/Private/Inventory/OWRPGInventoryManagerComponent.cpp:265-272 | the entry leaves the source and is appended here at the target; the stack moves between the totals |
| `InventoryManager.InventoryManagerComponent.RemoveFrom` | Source/OWRPGRuntime/Private/Inventory/OWRPGInventoryManagerComponent.cpp:268 | the source loses the entry, and this component is untouched |
| `InventoryManager.InventoryManagerComponent.TransferMerge` | Source/OWRPGRuntime/Private/Inventory/OWRPGInventoryManagerComponent.cpp:278-352 | moves min(source, MaxStack − destination) onto a non-full destination; the source entry goes when emptied, otherwise it shrinks in place; the totals shift by exactly the move |
| `InventoryManager.InventoryManagerComponent.MoveUnits` | Source/OWRPGRuntime/Private/Inventory/OWRPGInventoryManagerComponent.cpp:312-343 | a positive move that fits grows the destination and takes the same amount out of the source |
| `InventoryManager.InventoryManagerComponent.TakeFrom` | Source/OWRPGRuntime/Private/Inventory/OWRPGInventoryManagerComponent.cpp:324-342 | the source gives up exactly the amount, and this component is untouched |
| `InventoryManager.InventoryManagerComponent.TakeUnits` | Source/OWRPGRuntime/Private/Inventory/OWRPGInventoryManagerComponent.cpp:324-342 | the whole stack removes its entry; less shrinks it in place; the total drops by the amount |
| `InventoryManager.InventoryManagerComponent.TransferSwap` | Source/OWRPGRuntime/Private/Inventory/OWRPGInventoryManagerComponent.cpp:364-371 | the mover is at the target here and the displaced item at the mover's old spot and orientation in the source; both stay valid and disjoint |
| `InventoryManager.InventoryManagerComponent.ReturnEntry` | Source/OWRPGRuntime/Private/Inventory/OWRPGInventoryManagerComponent.cpp:366-370 | in the source the mover's entry gives way to the displaced one, and this component is untouched |
| `InventoryManager.InventoryManagerComponent.ReplaceEntry` | Source/OWRPGRuntime/Private/Inventory/OWRPGInventoryManagerComponent.cpp:367-369 | removing one entry and appending a fitting one keeps the invariant and updates the total |
| `InventoryManager.InventoryManagerComponent.ServerPickupItem` | Source/OWRPGRuntime/Private/Inventory/OWRPGInventoryManagerComponent.cpp:384-391 | acts only with an item, an empty cursor and an entry for it; the entry then moves to the cursor; the total is kept |
| `InventoryManager.InventoryManagerComponent.ServerAttemptMove` | Source/OWRPGRuntime/Private/Inventory/OWRPGInventoryManagerComponent.cpp:394-420 | acts only on the cursor item inside bounds: places it on free cells and empties the cursor, or exchanges it with the one overlapped item; otherwise no change |
| `InventoryManager.InventoryManagerComponent.PlaceCursor` | Source/OWRPGRuntime/Private/Inventory/OWRPGInventoryManagerComponent.cpp:405-409 | the cursor item is appended at the target and the cursor empties |
| `InventoryManager.InventoryManagerComponent.ExchangeCursor` | Source/OWRPGRuntime/Private/Inventory/OWRPGInventoryManagerComponent.cpp:410-418 | the overlapped item leaves the list for the cursor and the cursor item takes the target |
| `InventoryManager.InventoryManagerComponent.ServerDropFromCursor` | Source/OWRPGRuntime/Private/Inventory/OWRPGInventoryManagerComponent.cpp:423-439 | the cursor's whole stack goes to the world sink and the cursor empties; held plus spawned is kept |
| `InventoryManager.InventoryManagerComponent.ServerDropFromGrid` | Source/OWRPGRuntime/Private/Inventory/OWRPGInventoryManagerComponent.cpp:442-460 | a held item's whole stack goes to the world sink and its entry is removed; otherwise no change |
| `InventoryManager.InventoryManagerComponent.ShrinkStack` | Source/OWRPGRuntime/Private/Inventory/OWRPGInventoryManagerComponent.cpp:479-485 | taking less than the stack keeps the invariant and lowers the total by the amount when the item is held |
| `InventoryManager.InventoryManagerComponent.GrowStack` | Source/OWRPGRuntime/Private/Inventory/OWRPGInventoryManagerComponent.cpp:315-321 | adding what fits to a held stack keeps the invariant and raises the total by the amount |
| `InventoryManager.InventoryManagerComponent.ServerSplitStack` | Source/OWRPGRuntime/Private/Inventory/OWRPGInventoryManagerComponent.cpp:463-510 | with an empty cursor and 0 < amount < stack, the stack drops by the amount and a fresh same-definition stack of that amount goes on the cursor; otherwise no change; the total is kept for a held item |
| `InventoryManager.InventoryManagerComponent.ServerEquipItem` | Source/OWRPGRuntime/Private/Inventory/OWRPGInventoryManagerComponent.cpp:513-517 | removes the item's entry and nothing else; the total drops by its stack |

## Left out

- Replication and notification: marking items and the array dirty, replicated
  properties, the refresh broadcast and the replicated-change callback. None of
  them has behaviour to verify here. Nor does the transfer of replication
  ownership that a cross-container swap would need, which the code does not do.
- Reflection: stack counts are read and written through a typed `count` on the
  item instance. In the manager the stack accessor therefore always exists. The
  library's "accessor missing" default is kept as a boolean parameter of its
  helpers.
- `SpawnItemInWorld`: the model records every request as (definition, count).
  The source spawns nothing when the owner is not a pawn or the definition has
  no pickup fragment. It also uses float positions and a random yaw. All of
  that is actor spawning, outside the core.
- `GetTotalWeight` and `GetItemWeight`: float arithmetic, and the former is a
  stub returning 0. The library's display-name, icon, equipment and visual
  helpers are engine wrappers.
- The occupancy tile cache and the header's `RebuildCache`, `GetIndex`,
  `ServerPlaceItem` and 3-argument `Debug_AddItem`: they are declared but have
  no definition in the code modelled.
- `InventoryManager.InventoryManagerComponent.ServerSplitStack`: it keeps the
  invariant only when the split item's own count was in range. The code does
  not check that the item is held by this component, and the model does not
  add that check.
- Integer width: counts and coordinates are unbounded integers. Stack counts
  and the sizes of editor-clamped grids stay far inside `int32`. The drop
  coordinates of `ServerTransferFrom` and `ServerAttemptMove` come from the
  client, whose validation accepts anything, and the `int32` sums `DestX + W`
  and `DestY + H` in their bounds tests can overflow. The component methods use
  the intended test (`Grid.InBounds`), so they do not reproduce this; the
  test as written is modelled on its own under "## Findings".
- `Items.Positive`: MaxStack, Width and Height are at least 1 only because the
  editor clamps them (`ClampMin` in InventoryFragment_Dimensions.h and
  OWRPGInventoryFragment_CoreStats.h). The model takes that bound as part of the
  fragment types.
- `Disjoint`: the cross-container methods require that the two components hold
  no instance in common. The code never checks this; it holds because an
  instance lives in one container at a time.
- `Valid()` appears as a precondition of every component method. It is the
  invariant the component keeps, not a check the source makes on entry.
- The widget, drag-and-drop, attribute-set, ability and world-collectable
  files: UI painting, float stat clamps and engine glue outside the inventory
  core.

## Findings

| source | as written | input that shows it | evidently intended | confidence | as-written member | corrected member |
|---|---|---|---|---|---|---|
| Source/OWRPGRuntime/Private/Inventory/OWRPGInventoryManagerComponent.cpp:261 | the cross-container drop rejects `DestX + W > Columns` with the sum in `int32`, and the client's `DestX` is not validated (line 242) | a 2-wide item dropped at `DestX = 2147483647` on a 10-column grid: the sum overflows, wrapping to a negative number, so the test passes and the item is placed outside the grid (the overlap test at line 106 wraps the same way and finds nothing) | accept the drop only when every covered cell is a grid cell | not executed; signed overflow is undefined in C++, the wrap is the usual two's-complement outcome | `Grid.InBoundsAsWrittenAdmitsOutside` | `Grid.InBoundsIffCellsInside` |
| Source/OWRPGRuntime/Private/Inventory/OWRPGInventoryManagerComponent.cpp:401 | the same `int32` bounds test in the cursor move, whose `DestX` is not validated either (line 393) | the cursor item, 2 wide, moved to `DestX = 2147483647` on a 10-column grid | as above | not executed; signed overflow is undefined in C++, the wrap is the usual two's-complement outcome | `Grid.InBoundsAsWrittenAdmitsOutside` | `Grid.InBoundsIffCellsInside` |
