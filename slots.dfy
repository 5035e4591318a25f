/**
 * The slot list behind the backpack grid: one record per cell, appended row by
 * row (y outer, x inner), with the cell's linear index `y * width + x` and the
 * flags a disabled cell gets. Both revisions of slot generation are proved
 * against `GridSlots`; both `GetSlotRect` lookups use `SlotAt`.
 */
module Slots {
  import opened Wrappers
  import opened Inventory

  /**
   * What a spawned slot object carries: its cell, its linear index, whether it
   * is disabled, the alpha of its image, whether its lock icon is active and
   * whether its canvas group blocks raycasts.
   */
  datatype Slot = Slot(x: int, y: int, index: int, disabled: bool,
                       alpha: real, lockIconActive: bool, blocksRaycasts: bool)

  /** A disabled slot is transparent, locked and click-through; an enabled one is the opposite. */
  predicate WellStyled(s: Slot) {
    if s.disabled then s.alpha == 0.0 && s.lockIconActive && !s.blocksRaycasts
    else s.alpha == 1.0 && !s.lockIconActive && s.blocksRaycasts
  }

  /** The row-major linear index of a cell. */
  function LinearIndex(width: int, x: int, y: int): int {
    y * width + x
  }

  /** The slot spawned for cell `(x, y)` of a grid `width` cells wide. */
  function MakeSlot(x: int, y: int, width: int, disabled: set<int>): (s: Slot)
    ensures s.x == x && s.y == y && s.index == LinearIndex(width, x, y)
    ensures s.disabled <==> LinearIndex(width, x, y) in disabled
    ensures WellStyled(s)
  {
    var index := LinearIndex(width, x, y);
    var off := index in disabled;
    Slot(x, y, index, off, if off then 0.0 else 1.0, off, !off)
  }

  /** The set built from the list of disabled indices; a null list disables nothing. */
  function DisabledSet(indices: Option<seq<int>>): (d: set<int>)
    ensures indices.None? ==> d == {}
    ensures indices.Some? ==> forall i :: i in d <==> i in indices.value
  {
    match indices
    case None => {}
    case Some(l) => set i | i in l
  }

  /** Number of cells the nested loops visit: none unless both dimensions are positive. */
  function CellCount(width: int, height: int): nat {
    if width <= 0 || height <= 0 then 0 else width * height
  }

  /** The slots of row `y`, x from 0 to width - 1. */
  function Row(width: int, y: int, disabled: set<int>): seq<Slot> {
    seq(if width <= 0 then 0 else width, x => MakeSlot(x, y, width, disabled))
  }

  /** The whole slot list: rows 0 to height - 1, one after the other. */
  function GridSlots(width: int, height: int, disabled: set<int>): seq<Slot>
    decreases height
  {
    if height <= 0 then [] else GridSlots(width, height - 1, disabled) + Row(width, height - 1, disabled)
  }

  /** `gridPos` is mapped to `y * width + x`; only that linear index is range-checked. */
  function SlotAt(slots: seq<Slot>, width: int, gridPos: Vec2): Option<Slot> {
    var index := LinearIndex(width, gridPos.x, gridPos.y);
    if 0 <= index < |slots| then Some(slots[index]) else None
  }

  lemma RowBelow(width: int, x: int, y: int, h: int)
    requires 0 <= x < width && 0 <= y < h
    ensures 0 <= LinearIndex(width, x, y) < h * width
  {
    assert y * width <= (h - 1) * width;
    assert (h - 1) * width + width == h * width;
  }

  /** The nested loops visit `width * height` cells when both are positive, none otherwise. */
  lemma {:induction false} GridSlotsLength(width: int, height: int, disabled: set<int>)
    ensures |GridSlots(width, height, disabled)| == CellCount(width, height)
    decreases height
  {
    if height > 0 {
      GridSlotsLength(width, height - 1, disabled);
      if width > 0 {
        assert (height - 1) * width + width == width * height;
      }
    }
  }

  /** The slot at list position `k` has index `k` and a cell inside the grid. */
  lemma {:induction false} GridSlotsAt(width: int, height: int, disabled: set<int>, k: int)
    requires 0 <= k < |GridSlots(width, height, disabled)|
    ensures GridSlots(width, height, disabled)[k].index == k
    ensures 0 <= GridSlots(width, height, disabled)[k].x < width
    ensures 0 <= GridSlots(width, height, disabled)[k].y < height
    ensures var s := GridSlots(width, height, disabled)[k]; s == MakeSlot(s.x, s.y, width, disabled)
    decreases height
  {
    var prev := GridSlots(width, height - 1, disabled);
    if k < |prev| {
      GridSlotsAt(width, height - 1, disabled, k);
    } else {
      GridSlotsLength(width, height - 1, disabled);
      assert GridSlots(width, height, disabled)[k] == Row(width, height - 1, disabled)[k - |prev|];
    }
  }

  /** List position `y * width + x` holds the slot of cell `(x, y)`. */
  lemma {:induction false} GridSlotsCell(width: int, height: int, disabled: set<int>, x: int, y: int)
    requires 0 <= x < width && 0 <= y < height
    ensures LinearIndex(width, x, y) < |GridSlots(width, height, disabled)|
    ensures GridSlots(width, height, disabled)[LinearIndex(width, x, y)] == MakeSlot(x, y, width, disabled)
    decreases height
  {
    var prev := GridSlots(width, height - 1, disabled);
    GridSlotsLength(width, height, disabled);
    GridSlotsLength(width, height - 1, disabled);
    RowBelow(width, x, y, height);
    if y < height - 1 {
      GridSlotsCell(width, height - 1, disabled, x, y);
    } else {
      assert LinearIndex(width, x, y) == |prev| + x;
    }
  }

  /** Row-major order: list position `y * width + x` holds the slot of cell `(x, y)`, for every cell. */
  lemma GridSlotsRowMajor(width: int, height: int, disabled: set<int>)
    ensures forall x, y :: 0 <= x < width && 0 <= y < height ==>
      LinearIndex(width, x, y) < |GridSlots(width, height, disabled)| &&
      GridSlots(width, height, disabled)[LinearIndex(width, x, y)] == MakeSlot(x, y, width, disabled)
  {
    forall x, y | 0 <= x < width && 0 <= y < height
      ensures LinearIndex(width, x, y) < |GridSlots(width, height, disabled)|
      ensures GridSlots(width, height, disabled)[LinearIndex(width, x, y)] == MakeSlot(x, y, width, disabled)
    {
      GridSlotsCell(width, height, disabled, x, y);
    }
  }

  /**
   * Every generated slot sits at the list position equal to its own index,
   * has a cell inside the grid, is disabled exactly when that index is in the
   * set, and is styled to match.
   */
  lemma GridSlotsStyled(width: int, height: int, disabled: set<int>)
    ensures forall k :: 0 <= k < |GridSlots(width, height, disabled)| ==>
      GridSlots(width, height, disabled)[k].index == k &&
      0 <= GridSlots(width, height, disabled)[k].x < width &&
      0 <= GridSlots(width, height, disabled)[k].y < height &&
      WellStyled(GridSlots(width, height, disabled)[k]) &&
      (GridSlots(width, height, disabled)[k].disabled <==> k in disabled)
  {
    var all := GridSlots(width, height, disabled);
    forall k | 0 <= k < |all|
      ensures all[k].index == k && 0 <= all[k].x < width && 0 <= all[k].y < height
      ensures WellStyled(all[k]) && (all[k].disabled <==> k in disabled)
    {
      GridSlotsAt(width, height, disabled, k);
    }
  }

  /**
   * Looking up an in-grid cell in a generated list finds that cell's slot:
   * generation and lookup agree on the row-major layout.
   */
  lemma LookupGenerated(width: int, height: int, disabled: set<int>, x: int, y: int)
    requires 0 <= x < width && 0 <= y < height
    ensures SlotAt(GridSlots(width, height, disabled), width, Vec2(x, y)) == Some(MakeSlot(x, y, width, disabled))
  {
    GridSlotsCell(width, height, disabled, x, y);
  }

  /** Only the linear index is checked: column `width + x` of row `y` is column `x` of row `y + 1`. */
  lemma LookupAliases(slots: seq<Slot>, width: int, x: int, y: int)
    ensures SlotAt(slots, width, Vec2(width + x, y)) == SlotAt(slots, width, Vec2(x, y + 1))
  {
    assert (y + 1) * width == y * width + width;
  }
}
