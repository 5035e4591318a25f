# Backpack grid occupancy, slot layout and first-match lookups

This project models the integer and boolean bookkeeping behind a grid-based
backpack in a Unity inventory game, and proves properties of it.

- **Occupancy grid.** A backpack keeps a `width x height` boolean array `gridUsed`.
  - `IsAreaFree` tests a rectangle. It checks the four bounds, then checks every footprint cell.
  - `MarkAreaUsed` writes a value into every footprint cell inside the grid. Cells past the edge are skipped.
  - Placement is check-then-mark. `BackpackItemPlacer.TryPlaceItem` does it through those two operations.
  - The newer `BackpackGridManager.TryPlaceItem` inlines the same check-then-mark on its own array, after null guards.
- **Slot list.** `GenerateSlots`, and the older `BackpackGridManager.GenerateGrid`, build one slot record per cell.
  - Rows go y outer, x inner.
  - A slot is disabled when its linear index `y * width + x` is in the preset's index list.
  - A disabled slot is transparent, shows its lock icon and lets raycasts through.
  - `GetSlotRect` maps a position to `y * width + x` and range-checks only that index.
- **First-match lookups.**
  - `BackpackConfig.GetCurrentPreset` returns the first preset flagged current.
  - `MergeRules.TryGetMergeResult` returns the result of the first rule whose input is the item.
  - `InventoryItemMergeHandler.TryMergeWith` guards on the other handler, then delegates to that lookup.

Layout of the Dafny modules:
- `Occupancy` (occupancy.dfy) defines the grid as a value. It holds `AreaFree`, `Mark`, check-then-mark `TryPlace`, and the non-overlap invariant `Accounts`. The invariant says used cells are exactly the union of the pairwise disjoint footprints of the placed items.
- The classes `Layout.BackpackGridLayout`, `Placer.BackpackItemPlacer` and `Manager.BackpackGridManager` keep a real `array2<bool>`. They are proved against `Occupancy` through `Snapshot`, the value of the array.
- `Slots` (slots.dfy) gives the reference definition `GridSlots` of the slot list. Both slot-generation loops, `LayoutManager.BackpackGridLayoutManager.GenerateSlots` and `LegacyManager.BackpackGridManager.GenerateGrid`, are proved equal to it.
- `Config`, `Merge` and `MergeHandler` are pure functions over sequences.

Null references are `Option` values (`None` is null) or `has…` flags, except the few object references listed under "## Left out" that are taken to be assigned. An item asset is an `Inventory.ItemData` record. Its `asset` field stands for object identity, so record equality is Unity's reference equality.

Three points where the model follows the code rather than a cleaner design:
- **Disabled cells are not occupied.** `Manager.BackpackGridManager.GenerateGrid` passes the disabled indices only to slot generation. It then allocates an all-false array (`Assets/Scripts/Backpack/BackpackGridManager.cs:54-57`). Its postcondition states that the new grid equals `EmptyGrid`, disabled indices included.
- **No first-fit search, move check or recompute exists in the modelled sources** (`BackpackGridLayout.cs`, `BackpackItemPlacer.cs`, both `BackpackGridManager.cs` revisions, `BackpackGridLayoutManager.cs`, `BackpackConfig.cs`, `MergeRules.cs`, `InventoryItemMergeHandler.cs`). Free-position search, "can place excluding an item" and recomputing from live objects are not modelled.
- **The preset field.** Both managers read `preset.disabledCellIndices`. The `BackpackPreset` class in `BackpackConfig.cs` declares only `disabledCells` (coordinates). The model's `Config.BackpackPreset` carries both fields. `NewBackpackPreset` gives the index list the value `None`.

## Model

| member | source | states |
|---|---|---|
| Layout.BackpackGridLayout.IsAreaFree | Assets/Scripts/Backpack/BackpackGridLayout.cs:36-56 | without modifying anything, returns true exactly when the rectangle lies inside `[0,W) x [0,H)` (negative anchors included) and no footprint cell of `gridUsed` is set |
| Layout.BackpackGridLayout.MarkAreaUsed | Assets/Scripts/Backpack/BackpackGridLayout.cs:58-71 | unless the footprint is at least 1x1, starts below both far edges and has a negative anchor (where the source throws), the new array is the old one with every in-grid footprint cell set to `used`; everything else is unchanged and off-grid cells are skipped |
| Layout.BackpackGridLayout.GetSlotRect | Assets/Scripts/Backpack/BackpackGridLayout.cs:22-34 | returns a slot exactly when `y * W + x` (W the array's first dimension) is in `[0, count)`, and that slot is the spawned slot at list position `y * W + x` |
| Occupancy.TryPlace | Assets/Scripts/Backpack/BackpackItemPlacer.cs:11-30 | check-then-mark places exactly when the area is free and keeps the grid's shape |
| Occupancy.OutOfBoundsNotFree | Assets/Scripts/Backpack/BackpackGridLayout.cs:42-43 | a rectangle that leaves the grid on any side, including a negative anchor, is not free |
| Occupancy.MarkWritesFootprint | Assets/Scripts/Backpack/BackpackGridLayout.cs:63-70 | after a write, every in-grid footprint cell holds the written value |
| Occupancy.MarkFrame | Assets/Scripts/Backpack/BackpackGridLayout.cs:63-70 | a write leaves every cell outside the footprint unchanged |
| Occupancy.MarkLastWins | Assets/Scripts/Backpack/BackpackGridLayout.cs:58-71 | of two writes to the same area the second decides the whole grid |
| Occupancy.MarkIdempotent | Assets/Scripts/Backpack/BackpackGridLayout.cs:58-71 | two identical writes give the same grid as one |
| Occupancy.MarkedNotFree | Assets/Scripts/Backpack/BackpackGridLayout.cs:42-70 | after marking an in-bounds area of size at least 1x1 used, that area is not free |
| Occupancy.ClearedFree | Assets/Scripts/Backpack/BackpackGridLayout.cs:42-70 | after marking an in-bounds area unused, that area is free |
| Occupancy.MarkRoundTrip | Assets/Scripts/Backpack/BackpackGridLayout.cs:42-70 | marking a free area used and then unused restores the original grid exactly |
| Occupancy.EmptyGridFree | Assets/Scripts/Backpack/BackpackGridManager.cs:57 | on a freshly allocated grid every in-bounds area is free |
| Occupancy.EmptyGridAccounts | Assets/Scripts/Backpack/BackpackGridManager.cs:57 | a freshly allocated grid satisfies the non-overlap invariant with no items |
| Occupancy.TryPlaceEffect | Assets/Scripts/Backpack/BackpackItemPlacer.cs:11-30 | a failed placement leaves the grid unchanged; a successful one sets exactly the footprint cells and keeps every other cell |
| Occupancy.TryPlaceTwice | Assets/Scripts/Backpack/BackpackItemPlacer.cs:11-30 | repeating a successful placement of size at least 1x1 without clearing fails |
| Occupancy.TryPlaceKeepsAccounts | Assets/Scripts/Backpack/BackpackItemPlacer.cs:11-30 | if used cells are exactly the union of pairwise disjoint in-bounds footprints, that stays true after any placement, with the new item recorded when it is placed |
| Occupancy.ClearKeepsAccounts | Assets/Scripts/Backpack/BackpackGridLayout.cs:58-71 | clearing the footprint of one placed item keeps the invariant for the remaining items |
| Occupancy.PlacedNotFree | Assets/Scripts/Backpack/BackpackGridLayout.cs:36-56 | under the invariant, the area of every placed item of size at least 1x1 is not free |
| Occupancy.ClearOneKeepsOthers | Assets/Scripts/Backpack/BackpackGridLayout.cs:36-71 | clearing one placed item frees its area while every other placed item's area stays occupied |
| Placer.BackpackItemPlacer.TryPlaceItem | Assets/Scripts/Backpack/BackpackItemPlacer.cs:9-37 | returns false with the grid unchanged when the area is not free; otherwise marks the footprint used and returns true (the result and new grid are `TryPlace` of the old grid) |
| Manager.BackpackGridManager.TryPlaceItem | Assets/Scripts/Backpack/BackpackGridManager.cs:71-128 | returns false with no change when the item, its prefab or the items parent is missing, whether or not a grid exists and whatever the anchor; otherwise the result and new array are `InlinePlace` of the old array, which for a non-negative anchor is `TryPlace`: false with no change when past the far edges or a footprint cell is used, else the footprint becomes used and it returns true |
| Manager.BackpackGridManager.ScanFootprint | Assets/Scripts/Backpack/BackpackGridManager.cs:83-90 | below the far edges, and with a non-negative anchor whenever the footprint is at least 1x1, returns without modifying anything true exactly when no in-grid footprint cell of `gridUsed` is set |
| Manager.BackpackGridManager.MarkFootprint | Assets/Scripts/Backpack/BackpackGridManager.cs:123-125 | under the same conditions, the new array is the old one with every footprint cell set to used and every other cell unchanged |
| Occupancy.InlinePlace | Assets/Scripts/Backpack/BackpackGridManager.cs:79-125 | the inlined check-then-mark places exactly when the rectangle ends within the far edges and no in-grid footprint cell is used; when it fails the grid is unchanged |
| Occupancy.InlinePlaceAgrees | Assets/Scripts/Backpack/BackpackGridManager.cs:79-90 | with a non-negative anchor, testing only the far edges and scanning gives exactly `TryPlace`, the placer's check-then-mark |
| Occupancy.InlinePlaceEmpty | Assets/Scripts/Backpack/BackpackGridManager.cs:79-90 | an empty footprint (width or height at most 0) within the far edges is reported placed and changes nothing, even with a negative anchor, because neither loop reads a cell |
| Manager.BackpackGridManager.GenerateGrid | Assets/Scripts/Backpack/BackpackGridManager.cs:24-58 | always clears the slots; with no config or no current preset nothing else changes; otherwise the slots follow `GridSlots` of the preset and `gridUsed` is a fresh all-false array of the preset's dimension, disabled indices included |
| Manager.BackpackGridManager.ClearGrid | Assets/Scripts/Backpack/BackpackGridManager.cs:60-69 | the slot list becomes empty |
| Slots.MakeSlot | Assets/Scripts/Backpack/BackpackGridLayoutManager.cs:57-79 | a slot carries its cell and index `y * width + x`, is disabled iff that index is in the set, and gets alpha 0, an active lock icon and no raycast blocking when disabled, the opposite when enabled |
| Slots.DisabledSet | Assets/Scripts/Backpack/BackpackGridLayoutManager.cs:51 | a null list disables nothing; otherwise an index is disabled iff it occurs in the list (duplicates and out-of-range indices have no other effect) |
| Slots.GridSlotsLength | Assets/Scripts/Backpack/BackpackGridLayoutManager.cs:53-60 | the nested loops produce `width * height` slots when both are positive and none otherwise |
| Slots.GridSlotsAt | Assets/Scripts/Backpack/BackpackGridLayoutManager.cs:53-60 | the slot at list position `k` has index `k`, a cell inside the grid, and is the slot made for that cell |
| Slots.GridSlotsCell | Assets/Scripts/Backpack/BackpackGridLayoutManager.cs:53-60 | list position `y * width + x` holds the slot of cell `(x, y)` |
| Slots.GridSlotsRowMajor | Assets/Scripts/Backpack/BackpackGridLayoutManager.cs:53-60 | for every cell `(x, y)` of the grid, list position `y * width + x` exists and holds that cell's slot |
| Slots.GridSlotsStyled | Assets/Scripts/Backpack/BackpackGridLayoutManager.cs:51-79 | every generated slot sits at the position equal to its index, has a cell inside the grid, is disabled iff its index is in the set, and is styled to match |
| Slots.LookupGenerated | Assets/Scripts/Backpack/BackpackGridLayoutManager.cs:100-109 | on a generated list, looking up an in-grid cell returns exactly that cell's slot |
| Slots.LookupAliases | Assets/Scripts/Backpack/BackpackGridLayoutManager.cs:102-106 | only the linear index is checked, so `(width + x, y)` finds the same slot as `(x, y + 1)` |
| LayoutManager.BackpackGridLayoutManager.GenerateSlots | Assets/Scripts/Backpack/BackpackGridLayoutManager.cs:18-82 | always clears first; with a missing container, prefab or layout group the list stays empty; otherwise the column count becomes the width and the list is `GridSlots` of the dimension and the disabled set |
| LayoutManager.BackpackGridLayoutManager.ClearSlots | Assets/Scripts/Backpack/BackpackGridLayoutManager.cs:87-95 | the slot list becomes empty |
| LayoutManager.BackpackGridLayoutManager.GetSlotRect | Assets/Scripts/Backpack/BackpackGridLayoutManager.cs:100-109 | returns a slot exactly when `y * constraintCount + x` is in `[0, count)`, and that slot is the spawned slot at that list position; the slot container and its layout group must be present |
| LegacyManager.BackpackGridManager.GenerateGrid | Assets/Scripts/BackpackGridManager.cs:25-125 | always clears first; with a missing reference, preset or layout group there are no slots; otherwise the list is `GridSlots` of the current preset's dimension and disabled indices (a null list disables nothing) |
| LegacyManager.BackpackGridManager.ClearGrid | Assets/Scripts/BackpackGridManager.cs:127-141 | the slot list becomes empty |
| LegacyManager.BackpackGridManager.SetBackpackConfig | Assets/Scripts/BackpackGridManager.cs:143-147 | the config is replaced and the slots are regenerated from it |
| Config.NewBackpackPreset | Assets/Scripts/BackpackConfig.cs:29-39 | a new preset is named "New Backpack", is 4x4, has no disabled cells and no visual, and is not current |
| Config.GetCurrentPreset | Assets/Scripts/BackpackConfig.cs:13-23 | returns null iff no preset is current; otherwise returns a preset that is current with no current preset before it |
| Config.CurrentPresetOf | Assets/Scripts/Backpack/BackpackGridManager.cs:28-39 | a missing config yields no preset; a returned preset is current |
| Config.CurrentPresetConcat | Assets/Scripts/BackpackConfig.cs:15-19 | the search stops at the first current preset: presets after it never matter |
| Config.NewPresetsNotCurrent | Assets/Scripts/BackpackConfig.cs:39 | a config made only of new presets has no current preset |
| Merge.TryGetMergeResult | Assets/Scripts/Merge/MergeRules.cs:15-28 | found iff some rule's input is the item; when found, the result is that of a matching rule with no matching rule before it; when not found, the result is null |
| Merge.MergeRulesConcat | Assets/Scripts/Merge/MergeRules.cs:17-23 | rules after the first match never matter, so a later duplicate rule is shadowed |
| MergeHandler.InventoryItemMergeHandler.TryMergeWith | Assets/Scripts/Merge/InventoryItemMergeHandler.cs:8-17 | false with a null result when the other object has no handler or a different item; otherwise found iff one of this handler's rules matches its item, with the first matching rule's result |
| MergeHandler.MergeDelegates | Assets/Scripts/Merge/InventoryItemMergeHandler.cs:16 | with a partner for the same item, the answer is exactly this handler's rule lookup for its item |
| MergeHandler.OtherRulesIgnored | Assets/Scripts/Merge/InventoryItemMergeHandler.cs:16 | the other handler's rules are never consulted: two partners for the same item get the same answer |

## Left out

- Unity object lifecycle and UI assignments are engine glue and are not modelled. This covers `Instantiate`/`Destroy`, RectTransform anchors, pivots, sizes and positions, image colours, canvas-group creation and object names. Slot records keep only the flags and indices those assignments encode.
- The background visual instance created and destroyed in both `GenerateGrid`/`ClearGrid` revisions is engine state with no logic, and is not modelled.
- Floating-point layout maths is not modelled: the cell-size computation in both slot generators, `GetCellSize`, and the `maxCellSize` parameter.
- Pointer and camera plumbing is input handling and is not modelled: `TryPlaceItemAtMousePosition`, `IsPointerOverSlotContainer`.
- `BackpackGridLayout.GenerateGrid` and `ClearGrid` have empty bodies in the source. The layout's array and slot list are given to its constructor instead. The private `gridUsed` of `BackpackGridLayout.cs` is assigned nowhere in that file, so as written it stays null and every use of it throws; the model takes it to be allocated and does not model that throw.
- `InventoryItemDraggable`, `GroundGridManager`, `Generator_Items`, `BackpackUIController`, `BackpackVisualManager` and `InventoryItemView` are drag handling, visuals, or callers of methods defined in none of the modelled files. They are not part of this model.
- Layout.BackpackGridLayout.IsAreaFree: C# 32-bit `int` wrap-around of `position + size` and of `y * width + x` is not modelled. The model uses unbounded integers, so it matches the source only when these sums fit in 32 bits.
- Placer.BackpackItemPlacer.TryPlaceItem: the `gridLayout` reference is taken to be assigned. It is never null-checked, so a null one throws at `Backpack/BackpackItemPlacer.cs:11`; that throw is not modelled.
- Manager.BackpackGridManager: the `gridLayoutManager` reference is taken to be assigned. It is never null-checked, so a null one throws in `ClearGrid` at `Backpack/BackpackGridManager.cs:62` (the first step of `GenerateGrid`), at `:54` and at `:96`; those throws are not modelled.
- Layout.BackpackGridLayout.MarkAreaUsed: requires a non-negative anchor only when the footprint is at least 1x1 and the anchor lies below both far edges (`x < width`, `y < height`). Exactly then the source writes its first cell at a negative index and throws, before any write; exceptions are not modelled. An empty footprint, or an anchor at or past a far edge, writes nothing and returns normally, which the model reproduces.
- Manager.BackpackGridManager.TryPlaceItem: the array and the anchor matter only once the null guards pass. From there it requires a generated array, because reading the dimensions of a null `gridUsed` throws. It requires a non-negative anchor when the rectangle fits below the far edges and is at least 1x1, because the bounds test checks only the far edges and the scan then reads a negative index and throws. When the item is about to be placed, it requires the layout manager's slot container and `GridLayoutGroup` to be present, because the `GetSlotRect` call at `BackpackGridManager.cs:96` dereferences both and throws before the footprint is marked; that throw is not modelled. The RectTransform positioning itself and the view/drag component warnings are not modelled.
- LayoutManager.BackpackGridLayoutManager.GetSlotRect: requires the slot container and its `GridLayoutGroup` to be present, because the source dereferences both unconditionally and throws when either is null; that throw is not modelled.
- Manager.BackpackGridManager.GenerateGrid: requires the current preset's dimension to be non-negative, because allocating a negative-sized array throws.
- Placer.BackpackItemPlacer.TryPlaceItem: requires a prefab whenever the area is free, because `Instantiate` of a null prefab throws before the area is marked. Its item is a plain `ItemData`, not an `Option`, because a null `itemData` throws at `itemData.size` at once; that throw is not modelled. The view initialisation is not modelled.
- MergeHandler.InventoryItemMergeHandler.TryMergeWith: requires the handler's `mergeRules` to be present whenever it is consulted, because a null reference throws. The other object itself is taken to exist, so a null `otherItemGO` is not modelled. A null `rules` array in `MergeRules` is not modelled either: a serialised array is never null.
- Sizes below 1 are not excluded. The loops then do nothing, which the model reproduces. Lemmas that need a footprint cell require a size of at least 1x1.
- Logging is not modelled: the `Debug.Log`, `Debug.LogWarning` and `Debug.LogError` calls in the modelled files have no effect on the state.
- Slot object names (`Slot_{x}_{y}_idx{i}`) are string formatting. They are represented only by the slot's `x`, `y` and `index`.
