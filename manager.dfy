/**
 * `BackpackGridManager` (the revision under `Backpack/`): generates the slots
 * through the layout manager, allocates its own occupancy array, and places
 * items by an inlined check-then-mark on that array.
 */
module Manager {
  import opened Wrappers
  import opened Inventory
  import opened Occupancy
  import opened Slots
  import opened Config
  import opened LayoutManager

  class BackpackGridManager {
    /** Null until a grid has been generated. */
    var gridUsed: array2?<bool>
    /** False when the `itemsParent` reference is null. */
    var hasItemsParent: bool
    var backpackConfig: Option<BackpackConfig>
    var gridLayoutManager: BackpackGridLayoutManager

    constructor (backpackConfig: Option<BackpackConfig>, gridLayoutManager: BackpackGridLayoutManager, hasItemsParent: bool)
      ensures this.backpackConfig == backpackConfig && this.gridLayoutManager == gridLayoutManager
      ensures this.hasItemsParent == hasItemsParent && gridUsed == null
    {
      this.backpackConfig := backpackConfig;
      this.gridLayoutManager := gridLayoutManager;
      this.hasItemsParent := hasItemsParent;
      gridUsed := null;
    }

    /** The occupancy array as a value. */
    ghost function Model(): (g: Grid)
      reads this, gridUsed
      requires gridUsed != null
      ensures g.Valid() && g.width == gridUsed.Length0 && g.height == gridUsed.Length1
    {
      Snapshot(gridUsed)
    }

    /** Clears the slots (the background visual is left out). */
    method ClearGrid()
      modifies gridLayoutManager`spawnedSlots
      ensures gridLayoutManager.spawnedSlots == []
    {
      gridLayoutManager.ClearSlots();
    }

    /**
     * Always clears first; without a config or a current preset it stops
     * there. Otherwise the slots are generated from the preset's dimension and
     * disabled indices, and a new all-false occupancy array of that dimension
     * replaces the old one: disabled cells are not marked occupied.
     */
    method GenerateGrid()
      requires var p := CurrentPresetOf(backpackConfig); p.Some? ==> p.value.dimension.x >= 0 && p.value.dimension.y >= 0
      modifies this`gridUsed, gridLayoutManager`spawnedSlots, gridLayoutManager`constraintCount
      ensures var p := CurrentPresetOf(backpackConfig);
        if p.None? then
          gridUsed == old(gridUsed) && gridLayoutManager.spawnedSlots == [] &&
          gridLayoutManager.constraintCount == old(gridLayoutManager.constraintCount)
        else
          gridUsed != null && fresh(gridUsed) &&
          Model() == EmptyGrid(p.value.dimension.x, p.value.dimension.y) &&
          gridLayoutManager.spawnedSlots ==
            (if gridLayoutManager.Ready()
             then GridSlots(p.value.dimension.x, p.value.dimension.y, DisabledSet(p.value.disabledCellIndices))
             else []) &&
          gridLayoutManager.constraintCount ==
            (if gridLayoutManager.Ready() then p.value.dimension.x else old(gridLayoutManager.constraintCount))
    {
      ClearGrid();
      if backpackConfig.None? {
        return;
      }
      var preset := GetCurrentPreset(backpackConfig.value.presets);
      if preset.None? {
        return;
      }
      var dimension := preset.value.dimension;
      gridLayoutManager.GenerateSlots(dimension, preset.value.disabledCellIndices);
      gridUsed := new bool[dimension.x, dimension.y]((_, _) => false);
      Ext(Model(), EmptyGrid(dimension.x, dimension.y));
    }

    /**
     * Fails with no change when the item, its prefab or the items parent is
     * missing, before the array is read. Then tests only the far edges, scans
     * the footprint and fails with no change on the first used cell;
     * otherwise it looks up the anchor's slot through the layout manager,
     * which dereferences the slot container and its layout group, then marks
     * the whole footprint used and succeeds. A negative anchor is indexed by
     * the scan only when the footprint is at least 1x1.
     */
    method TryPlaceItem(slotPosition: Vec2, itemData: Option<ItemData>) returns (placed: bool)
      requires itemData.Some? && hasItemsParent && itemData.value.hasPrefab ==> gridUsed != null
      requires itemData.Some? && hasItemsParent && itemData.value.hasPrefab &&
               Model().UpperFits(slotPosition, itemData.value.size) &&
               itemData.value.size.x >= 1 && itemData.value.size.y >= 1 ==>
               slotPosition.x >= 0 && slotPosition.y >= 0
      requires itemData.Some? && hasItemsParent && itemData.value.hasPrefab &&
               InlinePlace(Model(), slotPosition, itemData.value.size).placed ==>
               gridLayoutManager.hasSlotContainer && gridLayoutManager.hasGridLayoutGroup
      modifies gridUsed
      ensures !(itemData.Some? && hasItemsParent && itemData.value.hasPrefab) ==>
        !placed && gridUsed == old(gridUsed) && (gridUsed != null ==> Model() == old(Model()))
      ensures itemData.Some? && hasItemsParent && itemData.value.hasPrefab ==>
        Outcome(placed, Model()) == InlinePlace(old(Model()), slotPosition, itemData.value.size)
      ensures itemData.Some? && hasItemsParent && itemData.value.hasPrefab && slotPosition.x >= 0 && slotPosition.y >= 0 ==>
        Outcome(placed, Model()) == TryPlace(old(Model()), slotPosition, itemData.value.size)
    {
      if itemData.None? || !hasItemsParent || !itemData.value.hasPrefab {
        return false;
      }
      var size := itemData.value.size;
      if slotPosition.x >= 0 && slotPosition.y >= 0 {
        InlinePlaceAgrees(Model(), slotPosition, size);
      }
      var width := gridUsed.Length0;
      var height := gridUsed.Length1;
      if slotPosition.x + size.x > width || slotPosition.y + size.y > height {
        return false;
      }
      var free := ScanFootprint(slotPosition, size);
      if !free {
        return false;
      }
      var slotRect := gridLayoutManager.GetSlotRect(slotPosition);
      MarkFootprint(slotPosition, size);
      return true;
    }

    /**
     * The inlined scan of `TryPlaceItem`: true exactly when no footprint cell
     * is used. Nothing is indexed when the footprint is empty.
     */
    method ScanFootprint(slotPosition: Vec2, size: Vec2) returns (free: bool)
      requires gridUsed != null && Model().UpperFits(slotPosition, size)
      requires size.x >= 1 && size.y >= 1 ==> slotPosition.x >= 0 && slotPosition.y >= 0
      ensures free == Model().FootprintClear(slotPosition, size)
    {
      var dx := 0;
      while dx < size.x
        invariant 0 <= dx && (dx <= size.x || dx == 0)
        invariant forall i, j :: slotPosition.x <= i < slotPosition.x + dx && slotPosition.y <= j < slotPosition.y + size.y ==>
          !gridUsed[i, j]
      {
        var dy := 0;
        var column := slotPosition.x + dx;
        while dy < size.y
          invariant 0 <= dy && (dy <= size.y || dy == 0)
          invariant forall j :: slotPosition.y <= j < slotPosition.y + dy ==> !gridUsed[column, j]
        {
          if gridUsed[column, slotPosition.y + dy] {
            assert Model().used[column][slotPosition.y + dy];
            return false;
          }
          dy := dy + 1;
        }
        dx := dx + 1;
      }
      return true;
    }

    /** The inlined marking loop of `TryPlaceItem`: every footprint cell becomes used. */
    method MarkFootprint(slotPosition: Vec2, size: Vec2)
      requires gridUsed != null && Model().UpperFits(slotPosition, size)
      requires size.x >= 1 && size.y >= 1 ==> slotPosition.x >= 0 && slotPosition.y >= 0
      modifies gridUsed
      ensures Model() == old(Model()).Mark(slotPosition, size, true)
    {
      var width := gridUsed.Length0;
      var height := gridUsed.Length1;
      var dx := 0;
      while dx < size.x
        invariant 0 <= dx && (dx <= size.x || dx == 0)
        invariant forall i, j :: 0 <= i < width && 0 <= j < height ==>
          gridUsed[i, j] == if slotPosition.x <= i < slotPosition.x + dx && slotPosition.y <= j < slotPosition.y + size.y
                            then true else old(gridUsed[i, j])
      {
        var dy := 0;
        while dy < size.y
          invariant 0 <= dy && (dy <= size.y || dy == 0)
          invariant forall i, j :: 0 <= i < width && 0 <= j < height ==>
            gridUsed[i, j] == if (slotPosition.x <= i < slotPosition.x + dx && slotPosition.y <= j < slotPosition.y + size.y)
                                 || (i == slotPosition.x + dx && slotPosition.y <= j < slotPosition.y + dy)
                              then true else old(gridUsed[i, j])
        {
          gridUsed[slotPosition.x + dx, slotPosition.y + dy] := true;
          dy := dy + 1;
        }
        dx := dx + 1;
      }
      Ext(Model(), old(Model()).Mark(slotPosition, size, true));
    }
  }
}
