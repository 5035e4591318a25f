/**
 * `BackpackGridLayout`: the occupancy array `gridUsed` of the backpack, its
 * area test, its area write, and the slot lookup that uses the array's width.
 * Slot generation is not part of this revision (its bodies are empty).
 */
module Layout {
  import opened Wrappers
  import opened Inventory
  import opened Occupancy
  import opened Slots

  class BackpackGridLayout {
    var spawnedSlots: seq<Slot>
    var gridUsed: array2<bool>

    constructor (gridUsed: array2<bool>, spawnedSlots: seq<Slot>)
      ensures this.gridUsed == gridUsed && this.spawnedSlots == spawnedSlots
    {
      this.gridUsed := gridUsed;
      this.spawnedSlots := spawnedSlots;
    }

    /** The occupancy array as a value. */
    ghost function Model(): (g: Grid)
      reads this, gridUsed
      ensures g.Valid() && g.width == gridUsed.Length0 && g.height == gridUsed.Length1
    {
      Snapshot(gridUsed)
    }

    /**
     * The slot at linear index `y * width + x`, width being the array's first
     * dimension; null (None) when that index is outside the slot list.
     */
    function GetSlotRect(gridPos: Vec2): (r: Option<Slot>)
      reads this
      ensures r.Some? <==> 0 <= LinearIndex(gridUsed.Length0, gridPos.x, gridPos.y) < |spawnedSlots|
      ensures r.Some? ==> r.value == spawnedSlots[LinearIndex(gridUsed.Length0, gridPos.x, gridPos.y)]
    {
      SlotAt(spawnedSlots, gridUsed.Length0, gridPos)
    }

    /** Read-only: bounds first (all four sides), then every footprint cell. */
    method IsAreaFree(position: Vec2, size: Vec2) returns (free: bool)
      ensures free == Model().AreaFree(position, size)
    {
      var width := gridUsed.Length0;
      var height := gridUsed.Length1;
      if position.x < 0 || position.y < 0 || position.x + size.x > width || position.y + size.y > height {
        return false;
      }
      var x := 0;
      while x < size.x
        invariant 0 <= x && (x <= size.x || x == 0)
        invariant forall i, j :: position.x <= i < position.x + x && position.y <= j < position.y + size.y ==>
          !gridUsed[i, j]
      {
        var y := 0;
        var column := position.x + x;
        while y < size.y
          invariant 0 <= y && (y <= size.y || y == 0)
          invariant forall i, j :: position.x <= i < position.x + x && position.y <= j < position.y + size.y ==>
            !gridUsed[i, j]
          invariant forall j :: position.y <= j < position.y + y ==> !gridUsed[column, j]
        {
          if gridUsed[column, position.y + y] {
            assert Model().used[column][position.y + y];
            return false;
          }
          y := y + 1;
        }
        x := x + 1;
      }
      return true;
    }

    /**
     * Writes `used` into every footprint cell with x < width and y < height,
     * skipping the rest. The first footprint cell is written unless it lies
     * past a far edge, so a negative anchor would index out of range exactly
     * when the footprint is at least 1x1 and starts below both far edges.
     */
    method MarkAreaUsed(position: Vec2, size: Vec2, used: bool)
      requires size.x >= 1 && size.y >= 1 && position.x < gridUsed.Length0 && position.y < gridUsed.Length1 ==>
               position.x >= 0 && position.y >= 0
      modifies gridUsed
      ensures Model() == old(Model()).Mark(position, size, used)
    {
      var width := gridUsed.Length0;
      var height := gridUsed.Length1;
      var x := 0;
      while x < size.x
        invariant 0 <= x && (x <= size.x || x == 0)
        invariant forall i, j :: 0 <= i < width && 0 <= j < height ==>
          gridUsed[i, j] == if position.x <= i < position.x + x && position.y <= j < position.y + size.y
                            then used else old(gridUsed[i, j])
      {
        var y := 0;
        while y < size.y
          invariant 0 <= y && (y <= size.y || y == 0)
          invariant forall i, j :: 0 <= i < width && 0 <= j < height ==>
            gridUsed[i, j] == if (position.x <= i < position.x + x && position.y <= j < position.y + size.y)
                                 || (i == position.x + x && position.y <= j < position.y + y)
                              then used else old(gridUsed[i, j])
        {
          if position.x + x < width && position.y + y < height {
            gridUsed[position.x + x, position.y + y] := used;
          }
          y := y + 1;
        }
        x := x + 1;
      }
      Ext(Model(), old(Model()).Mark(position, size, used));
    }
  }
}
