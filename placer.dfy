/** `BackpackItemPlacer`: check-then-mark placement on a shared `BackpackGridLayout`. */
module Placer {
  import opened Inventory
  import opened Occupancy
  import opened Layout

  /** The items parent is only the parent given to `Instantiate`, where null is allowed, so it has no field here. */
  class BackpackItemPlacer {
    var gridLayout: BackpackGridLayout

    constructor (gridLayout: BackpackGridLayout)
      ensures this.gridLayout == gridLayout
    {
      this.gridLayout := gridLayout;
    }

    /**
     * Fails with no change when the area is not free; otherwise marks the
     * footprint used and succeeds. The item object is instantiated only on
     * the success path, so only there must the item have a prefab.
     */
    method TryPlaceItem(position: Vec2, itemData: ItemData) returns (placed: bool)
      requires gridLayout.Model().AreaFree(position, itemData.size) ==> itemData.hasPrefab
      modifies gridLayout.gridUsed
      ensures Outcome(placed, gridLayout.Model()) == TryPlace(old(gridLayout.Model()), position, itemData.size)
    {
      var free := gridLayout.IsAreaFree(position, itemData.size);
      if !free {
        return false;
      }
      gridLayout.MarkAreaUsed(position, itemData.size, true);
      return true;
    }
  }
}
