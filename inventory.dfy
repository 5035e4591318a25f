/**
 * Plain data used by the backpack grid: Unity's `Vector2Int` (the same pair as
 * `CellPos`) and the `InventoryItemData` asset.
 */
module Inventory {

  /** An integer pair: a cell position `(x, y)` or a size `(width, height)`. */
  datatype Vec2 = Vec2(x: int, y: int)

  /**
   * An `InventoryItemData` asset. Unity compares such assets by reference;
   * `asset` is the identity of the asset instance, so two records are equal
   * exactly when they stand for the same asset. `hasPrefab` is false when the
   * `itemPrefab` reference is null. The icon is left out.
   */
  datatype ItemData = ItemData(asset: nat, itemId: string, size: Vec2, hasPrefab: bool, rotatable: bool)
}
