/**
 * The older `BackpackGridManager` (at the top of `Assets/Scripts`): it owns the
 * slot list itself and builds it row by row from the current preset, with no
 * occupancy array.
 */
module LegacyManager {
  import opened Wrappers
  import opened Slots
  import opened Config

  class BackpackGridManager {
    var backpackConfig: Option<BackpackConfig>
    /** False when the `slotContainer` reference is null. */
    var hasSlotContainer: bool
    /** False when the `slotPrefab` reference is null. */
    var hasSlotPrefab: bool
    /** False when the container carries no `GridLayoutGroup`. */
    var hasGridLayoutGroup: bool
    var spawnedSlots: seq<Slot>

    constructor (backpackConfig: Option<BackpackConfig>, hasSlotContainer: bool, hasSlotPrefab: bool, hasGridLayoutGroup: bool)
      ensures this.backpackConfig == backpackConfig && this.hasSlotContainer == hasSlotContainer
      ensures this.hasSlotPrefab == hasSlotPrefab && this.hasGridLayoutGroup == hasGridLayoutGroup
      ensures spawnedSlots == []
    {
      this.backpackConfig := backpackConfig;
      this.hasSlotContainer := hasSlotContainer;
      this.hasSlotPrefab := hasSlotPrefab;
      this.hasGridLayoutGroup := hasGridLayoutGroup;
      spawnedSlots := [];
    }

    /** The slots the current preset calls for, or none when a reference or the preset is missing. */
    ghost function Expected(): seq<Slot>
      reads this
    {
      var p := CurrentPresetOf(backpackConfig);
      if p.Some? && hasSlotContainer && hasSlotPrefab && hasGridLayoutGroup
      then GridSlots(p.value.dimension.x, p.value.dimension.y, DisabledSet(p.value.disabledCellIndices))
      else []
    }

    /**
     * Always clears first, then returns with no slots when the config, the
     * prefab, the container, the current preset or the layout group is
     * missing; otherwise appends one slot per cell, y outer and x inner,
     * disabled exactly when its linear index is in the preset's list.
     */
    method GenerateGrid()
      modifies this`spawnedSlots
      ensures spawnedSlots == Expected()
    {
      ClearGrid();
      if backpackConfig.None? || !hasSlotPrefab || !hasSlotContainer {
        return;
      }
      var preset := GetCurrentPreset(backpackConfig.value.presets);
      if preset.None? {
        return;
      }
      var width := preset.value.dimension.x;
      var height := preset.value.dimension.y;
      if !hasGridLayoutGroup {
        return;
      }
      var disabledIndicesSet := DisabledSet(preset.value.disabledCellIndices);
      var y := 0;
      while y < height
        invariant 0 <= y && (y <= height || y == 0)
        invariant spawnedSlots == GridSlots(width, y, disabledIndicesSet)
      {
        var x := 0;
        while x < width
          invariant 0 <= x && (x <= width || x == 0)
          invariant spawnedSlots == GridSlots(width, y, disabledIndicesSet) + Row(width, y, disabledIndicesSet)[..x]
        {
          spawnedSlots := spawnedSlots + [MakeSlot(x, y, width, disabledIndicesSet)];
          x := x + 1;
        }
        assert Row(width, y, disabledIndicesSet)[..x] == Row(width, y, disabledIndicesSet);
        y := y + 1;
      }
    }

    /** Destroys the slot objects and empties the list (the background visual is left out). */
    method ClearGrid()
      modifies this`spawnedSlots
      ensures spawnedSlots == []
    {
      spawnedSlots := [];
    }

    /** Replaces the config and regenerates. */
    method SetBackpackConfig(config: Option<BackpackConfig>)
      modifies this`backpackConfig, this`spawnedSlots
      ensures backpackConfig == config && spawnedSlots == Expected()
    {
      backpackConfig := config;
      GenerateGrid();
    }
  }
}
