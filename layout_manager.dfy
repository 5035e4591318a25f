/**
 * `BackpackGridLayoutManager`: the slot objects of the backpack, generated row
 * by row from a dimension and a list of disabled linear indices, and looked up
 * by grid position through the layout group's column count.
 */
module LayoutManager {
  import opened Wrappers
  import opened Inventory
  import opened Slots

  class BackpackGridLayoutManager {
    /** False when the `slotContainer` reference is null. */
    var hasSlotContainer: bool
    /** False when the `slotPrefab` reference is null. */
    var hasSlotPrefab: bool
    /** False when the container carries no `GridLayoutGroup`. */
    var hasGridLayoutGroup: bool
    /** The `constraintCount` (column count) of the container's `GridLayoutGroup`. */
    var constraintCount: int
    var spawnedSlots: seq<Slot>

    constructor (hasSlotContainer: bool, hasSlotPrefab: bool, hasGridLayoutGroup: bool, constraintCount: int)
      ensures this.hasSlotContainer == hasSlotContainer && this.hasSlotPrefab == hasSlotPrefab
      ensures this.hasGridLayoutGroup == hasGridLayoutGroup && this.constraintCount == constraintCount
      ensures spawnedSlots == []
    {
      this.hasSlotContainer := hasSlotContainer;
      this.hasSlotPrefab := hasSlotPrefab;
      this.hasGridLayoutGroup := hasGridLayoutGroup;
      this.constraintCount := constraintCount;
      spawnedSlots := [];
    }

    /** Every reference slot generation needs is present. */
    predicate Ready()
      reads this
    {
      hasSlotContainer && hasSlotPrefab && hasGridLayoutGroup
    }

    /**
     * Always clears first. With a reference missing the list stays empty;
     * otherwise the column count becomes the width and one slot per cell is
     * appended, y outer and x inner, disabled exactly when its linear index is
     * in the list. The cell-size computation is left out.
     */
    method GenerateSlots(dimension: Vec2, disabledIndices: Option<seq<int>>)
      modifies this`spawnedSlots, this`constraintCount
      ensures spawnedSlots == if Ready() then GridSlots(dimension.x, dimension.y, DisabledSet(disabledIndices)) else []
      ensures constraintCount == if Ready() then dimension.x else old(constraintCount)
    {
      ClearSlots();
      if !hasSlotContainer || !hasSlotPrefab {
        return;
      }
      var width := dimension.x;
      var height := dimension.y;
      if !hasGridLayoutGroup {
        return;
      }
      constraintCount := width;
      var disabledSet := DisabledSet(disabledIndices);
      var y := 0;
      while y < height
        invariant 0 <= y && (y <= height || y == 0)
        invariant spawnedSlots == GridSlots(width, y, disabledSet)
        invariant constraintCount == width
      {
        var x := 0;
        while x < width
          invariant 0 <= x && (x <= width || x == 0)
          invariant spawnedSlots == GridSlots(width, y, disabledSet) + Row(width, y, disabledSet)[..x]
          invariant constraintCount == width
        {
          spawnedSlots := spawnedSlots + [MakeSlot(x, y, width, disabledSet)];
          x := x + 1;
        }
        assert Row(width, y, disabledSet)[..x] == Row(width, y, disabledSet);
        y := y + 1;
      }
    }

    /** Destroys the slot objects and empties the list. */
    method ClearSlots()
      modifies this`spawnedSlots
      ensures spawnedSlots == []
    {
      spawnedSlots := [];
    }

    /**
     * The slot at linear index `y * constraintCount + x`, or None (null) when
     * that index is outside the list. The container and its layout group are
     * dereferenced unconditionally.
     */
    function GetSlotRect(gridPos: Vec2): (r: Option<Slot>)
      reads this
      requires hasSlotContainer && hasGridLayoutGroup
      ensures r.Some? <==> 0 <= LinearIndex(constraintCount, gridPos.x, gridPos.y) < |spawnedSlots|
      ensures r.Some? ==> r.value == spawnedSlots[LinearIndex(constraintCount, gridPos.x, gridPos.y)]
    {
      SlotAt(spawnedSlots, constraintCount, gridPos)
    }
  }
}
