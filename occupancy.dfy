/**
 * The occupancy bookkeeping of the backpack, on values: an image of the
 * `bool[width, height]` array `gridUsed`, the area test, the area write, and
 * check-then-mark placement. The classes in the other modules are proved
 * against these definitions.
 */
module Occupancy {
  import opened Inventory

  /** Cell `(x, y)` lies in the footprint of size `s` anchored (top-left) at `p`. */
  predicate InFootprint(p: Vec2, s: Vec2, x: int, y: int) {
    p.x <= x < p.x + s.x && p.y <= y < p.y + s.y
  }

  /** `used[x][y]` is `gridUsed[x, y]`: x indexes the first dimension, y the second. */
  datatype Grid = Grid(width: nat, height: nat, used: seq<seq<bool>>) {

    predicate Valid() {
      |used| == width && forall x :: 0 <= x < width ==> |used[x]| == height
    }

    predicate InGrid(x: int, y: int) {
      0 <= x < width && 0 <= y < height
    }

    /** The rectangle stays inside `[0, width) x [0, height)`. */
    predicate InBounds(p: Vec2, s: Vec2) {
      0 <= p.x && 0 <= p.y && p.x + s.x <= width && p.y + s.y <= height
    }

    /** In bounds, and no cell of the footprint is used. */
    predicate AreaFree(p: Vec2, s: Vec2)
      requires Valid()
    {
      InBounds(p, s) &&
      forall x, y :: p.x <= x < p.x + s.x && p.y <= y < p.y + s.y ==> !used[x][y]
    }

    /** Only the far edges: the rectangle ends at or before `width` and `height`. */
    predicate UpperFits(p: Vec2, s: Vec2) {
      p.x + s.x <= width && p.y + s.y <= height
    }

    /** No in-grid cell of the footprint is used. */
    predicate FootprintClear(p: Vec2, s: Vec2)
      requires Valid()
    {
      forall x, y :: 0 <= x < width && 0 <= y < height && InFootprint(p, s, x, y) ==> !used[x][y]
    }

    /** Every footprint cell inside the grid is set to `v`; the rest of the footprint is clipped. */
    function Mark(p: Vec2, s: Vec2, v: bool): (g: Grid)
      requires Valid()
      ensures g.Valid() && g.width == width && g.height == height
    {
      Grid(width, height,
        seq(width, x requires 0 <= x < width =>
          seq(height, y requires 0 <= y < height =>
            if InFootprint(p, s, x, y) then v else used[x][y])))
    }
  }

  /** A freshly allocated `new bool[width, height]`: every cell false. */
  function EmptyGrid(width: nat, height: nat): (g: Grid)
    ensures g.Valid() && g.width == width && g.height == height
    ensures forall x, y :: g.InGrid(x, y) ==> !g.used[x][y]
  {
    Grid(width, height, seq(width, x => seq(height, y => false)))
  }

  /** The value of an occupancy array in the current heap. */
  ghost function Snapshot(a: array2<bool>): (g: Grid)
    reads a
    ensures g.Valid() && g.width == a.Length0 && g.height == a.Length1
    ensures forall x, y :: g.InGrid(x, y) ==> g.used[x][y] == a[x, y]
  {
    Grid(a.Length0, a.Length1,
      seq(a.Length0, x requires 0 <= x < a.Length0 reads a =>
        seq(a.Length1, y requires 0 <= y < a.Length1 reads a => a[x, y])))
  }

  /** Two grids of the same shape that agree on every cell are equal. */
  lemma Ext(a: Grid, b: Grid)
    requires a.Valid() && b.Valid() && a.width == b.width && a.height == b.height
    requires forall x, y :: a.InGrid(x, y) ==> a.used[x][y] == b.used[x][y]
    ensures a == b
  {
    forall x | 0 <= x < a.width
      ensures a.used[x] == b.used[x]
    {
      assert forall y :: 0 <= y < a.height ==> a.InGrid(x, y);
    }
  }

  /** Result of check-then-mark: whether the item was placed, and the grid after. */
  datatype Outcome = Outcome(placed: bool, grid: Grid)

  /** Check-then-mark: mark the footprint used if the area is free, otherwise change nothing. */
  function TryPlace(g: Grid, p: Vec2, s: Vec2): (r: Outcome)
    requires g.Valid()
    ensures r.grid.Valid() && r.grid.width == g.width && r.grid.height == g.height
    ensures r.placed <==> g.AreaFree(p, s)
  {
    if g.AreaFree(p, s) then Outcome(true, g.Mark(p, s, true)) else Outcome(false, g)
  }

  /**
   * The check-then-mark that the newer manager inlines: only the far edges
   * are tested, then the footprint is scanned, then marked. With an empty
   * footprint nothing is scanned, so even a negative anchor succeeds.
   */
  function InlinePlace(g: Grid, p: Vec2, s: Vec2): (r: Outcome)
    requires g.Valid()
    ensures r.grid.Valid() && r.grid.width == g.width && r.grid.height == g.height
    ensures r.placed <==> g.UpperFits(p, s) && g.FootprintClear(p, s)
    ensures !r.placed ==> r.grid == g
  {
    if g.UpperFits(p, s) && g.FootprintClear(p, s) then Outcome(true, g.Mark(p, s, true)) else Outcome(false, g)
  }

  /** With a non-negative anchor the inlined placement is exactly `TryPlace`. */
  lemma InlinePlaceAgrees(g: Grid, p: Vec2, s: Vec2)
    requires g.Valid() && p.x >= 0 && p.y >= 0
    ensures InlinePlace(g, p, s) == TryPlace(g, p, s)
  {
    if g.UpperFits(p, s) {
      assert g.FootprintClear(p, s) <==> g.AreaFree(p, s) by {
        forall x, y | InFootprint(p, s, x, y)
          ensures g.InGrid(x, y)
        {
        }
      }
    }
  }

  /** An empty footprint that fits below the far edges is "placed" and changes nothing, whatever the anchor. */
  lemma InlinePlaceEmpty(g: Grid, p: Vec2, s: Vec2)
    requires g.Valid() && g.UpperFits(p, s) && (s.x <= 0 || s.y <= 0)
    ensures InlinePlace(g, p, s) == Outcome(true, g)
  {
    Ext(g.Mark(p, s, true), g);
  }

  // ---------------------------------------------------------------------------
  // Properties of the area test and the area write

  /** A rectangle that leaves the grid, on any side, is never free. */
  lemma OutOfBoundsNotFree(g: Grid, p: Vec2, s: Vec2)
    requires g.Valid()
    requires p.x < 0 || p.y < 0 || p.x + s.x > g.width || p.y + s.y > g.height
    ensures !g.AreaFree(p, s)
  {
  }

  /** After a write, every footprint cell inside the grid holds the written value. */
  lemma MarkWritesFootprint(g: Grid, p: Vec2, s: Vec2, v: bool, x: int, y: int)
    requires g.Valid() && g.InGrid(x, y) && InFootprint(p, s, x, y)
    ensures g.Mark(p, s, v).used[x][y] == v
  {
  }

  /** A write leaves every cell outside the footprint unchanged. */
  lemma MarkFrame(g: Grid, p: Vec2, s: Vec2, v: bool, x: int, y: int)
    requires g.Valid() && g.InGrid(x, y) && !InFootprint(p, s, x, y)
    ensures g.Mark(p, s, v).used[x][y] == g.used[x][y]
  {
  }

  /** Of two writes to the same area, the second decides; in particular a write is idempotent. */
  lemma MarkLastWins(g: Grid, p: Vec2, s: Vec2, v: bool, w: bool)
    requires g.Valid()
    ensures g.Mark(p, s, v).Mark(p, s, w) == g.Mark(p, s, w)
  {
    Ext(g.Mark(p, s, v).Mark(p, s, w), g.Mark(p, s, w));
  }

  lemma MarkIdempotent(g: Grid, p: Vec2, s: Vec2, v: bool)
    requires g.Valid()
    ensures g.Mark(p, s, v).Mark(p, s, v) == g.Mark(p, s, v)
  {
    MarkLastWins(g, p, s, v, v);
  }

  /** Marking an in-bounds area of size at least 1x1 used makes it not free. */
  lemma MarkedNotFree(g: Grid, p: Vec2, s: Vec2)
    requires g.Valid() && g.InBounds(p, s) && s.x >= 1 && s.y >= 1
    ensures !g.Mark(p, s, true).AreaFree(p, s)
  {
    assert InFootprint(p, s, p.x, p.y);
    assert g.Mark(p, s, true).used[p.x][p.y];
  }

  /** Marking an in-bounds area unused makes it free. */
  lemma ClearedFree(g: Grid, p: Vec2, s: Vec2)
    requires g.Valid() && g.InBounds(p, s)
    ensures g.Mark(p, s, false).AreaFree(p, s)
  {
    var c := g.Mark(p, s, false);
    forall x, y | InFootprint(p, s, x, y)
      ensures !c.used[x][y]
    {
      MarkWritesFootprint(g, p, s, false, x, y);
    }
  }

  /** Marking a free area used and then unused gives back the grid exactly. */
  lemma MarkRoundTrip(g: Grid, p: Vec2, s: Vec2)
    requires g.Valid() && g.AreaFree(p, s)
    ensures g.Mark(p, s, true).Mark(p, s, false) == g
  {
    var r := g.Mark(p, s, true).Mark(p, s, false);
    forall x, y | g.InGrid(x, y)
      ensures r.used[x][y] == g.used[x][y]
    {
    }
    Ext(r, g);
  }

  /** On a fresh grid every in-bounds area is free. */
  lemma EmptyGridFree(width: nat, height: nat, p: Vec2, s: Vec2)
    requires EmptyGrid(width, height).InBounds(p, s)
    ensures EmptyGrid(width, height).AreaFree(p, s)
  {
    var g := EmptyGrid(width, height);
    forall x, y | InFootprint(p, s, x, y)
      ensures !g.used[x][y]
    {
      assert g.InGrid(x, y);
    }
  }

  // ---------------------------------------------------------------------------
  // Properties of check-then-mark

  /** A failed placement changes nothing; a successful one writes exactly the footprint. */
  lemma TryPlaceEffect(g: Grid, p: Vec2, s: Vec2, x: int, y: int)
    requires g.Valid() && g.InGrid(x, y)
    ensures !TryPlace(g, p, s).placed ==> TryPlace(g, p, s).grid == g
    ensures TryPlace(g, p, s).placed ==>
      TryPlace(g, p, s).grid.used[x][y] == (InFootprint(p, s, x, y) || g.used[x][y])
  {
  }

  /** The same placement repeated without clearing fails the second time. */
  lemma TryPlaceTwice(g: Grid, p: Vec2, s: Vec2)
    requires g.Valid() && s.x >= 1 && s.y >= 1
    requires TryPlace(g, p, s).placed
    ensures !TryPlace(TryPlace(g, p, s).grid, p, s).placed
  {
    MarkedNotFree(g, p, s);
  }

  // ---------------------------------------------------------------------------
  // The non-overlap invariant: used cells are exactly the union of the
  // pairwise disjoint footprints of the items placed so far.

  datatype Placement = Placement(pos: Vec2, size: Vec2) {
    predicate Covers(x: int, y: int) {
      InFootprint(pos, size, x, y)
    }
  }

  ghost predicate Disjoint(ps: seq<Placement>) {
    forall i, j, x, y :: 0 <= i < j < |ps| && ps[i].Covers(x, y) ==> !ps[j].Covers(x, y)
  }

  ghost predicate Covered(ps: seq<Placement>, x: int, y: int) {
    exists i :: 0 <= i < |ps| && ps[i].Covers(x, y)
  }

  ghost predicate Accounts(g: Grid, ps: seq<Placement>) {
    && g.Valid()
    && Disjoint(ps)
    && (forall i :: 0 <= i < |ps| ==> g.InBounds(ps[i].pos, ps[i].size))
    && (forall x, y :: g.InGrid(x, y) ==> (g.used[x][y] <==> Covered(ps, x, y)))
  }

  /** A fresh grid holds no items. */
  lemma EmptyGridAccounts(width: nat, height: nat)
    ensures Accounts(EmptyGrid(width, height), [])
  {
  }

  /** Check-then-mark keeps the invariant, recording the new item when it is placed. */
  lemma TryPlaceKeepsAccounts(g: Grid, ps: seq<Placement>, p: Vec2, s: Vec2)
    requires Accounts(g, ps)
    ensures TryPlace(g, p, s).placed ==> Accounts(TryPlace(g, p, s).grid, ps + [Placement(p, s)])
    ensures !TryPlace(g, p, s).placed ==> Accounts(TryPlace(g, p, s).grid, ps)
  {
    if g.AreaFree(p, s) {
      var g' := g.Mark(p, s, true);
      var n := Placement(p, s);
      var ps' := ps + [n];
      forall i, j, x, y | 0 <= i < j < |ps'| && ps'[i].Covers(x, y)
        ensures !ps'[j].Covers(x, y)
      {
        if j == |ps| {
          assert g.InBounds(ps[i].pos, ps[i].size);
          assert g.InGrid(x, y);
          assert Covered(ps, x, y);
          assert g.used[x][y];
        }
      }
      forall x, y | g'.InGrid(x, y)
        ensures g'.used[x][y] <==> Covered(ps', x, y)
      {
        if n.Covers(x, y) {
          assert ps'[|ps|] == n;
        } else {
          if Covered(ps, x, y) {
            var i :| 0 <= i < |ps| && ps[i].Covers(x, y);
            assert ps'[i] == ps[i];
          }
          if Covered(ps', x, y) {
            var i :| 0 <= i < |ps'| && ps'[i].Covers(x, y);
            assert i < |ps| && ps[i] == ps'[i];
          }
        }
      }
    }
  }

  /** The placements without the one at position `k`. */
  function Without(ps: seq<Placement>, k: nat): (r: seq<Placement>)
    requires k < |ps|
    ensures |r| == |ps| - 1
    ensures forall i :: 0 <= i < |r| ==> r[i] == if i < k then ps[i] else ps[i + 1]
  {
    ps[..k] + ps[k + 1..]
  }

  /** Clearing the footprint of a placed item keeps the invariant for the remaining items. */
  lemma ClearKeepsAccounts(g: Grid, ps: seq<Placement>, k: nat)
    requires Accounts(g, ps) && k < |ps|
    ensures Accounts(g.Mark(ps[k].pos, ps[k].size, false), Without(ps, k))
  {
    var g' := g.Mark(ps[k].pos, ps[k].size, false);
    var rest := Without(ps, k);
    forall i, j, x, y | 0 <= i < j < |rest| && rest[i].Covers(x, y)
      ensures !rest[j].Covers(x, y)
    {
      var i0 := if i < k then i else i + 1;
      var j0 := if j < k then j else j + 1;
      assert rest[i] == ps[i0] && rest[j] == ps[j0] && i0 < j0;
    }
    forall x, y | g'.InGrid(x, y)
      ensures g'.used[x][y] <==> Covered(rest, x, y)
    {
      if ps[k].Covers(x, y) {
        forall i | 0 <= i < |rest|
          ensures !rest[i].Covers(x, y)
        {
          var i0 := if i < k then i else i + 1;
          assert rest[i] == ps[i0];
        }
      } else {
        if Covered(ps, x, y) {
          var i :| 0 <= i < |ps| && ps[i].Covers(x, y);
          assert i != k;
          var i1 := if i < k then i else i - 1;
          assert rest[i1] == ps[i];
        }
        if Covered(rest, x, y) {
          var i :| 0 <= i < |rest| && rest[i].Covers(x, y);
          var i0 := if i < k then i else i + 1;
          assert ps[i0] == rest[i];
        }
      }
    }
  }

  /** Under the invariant, the footprint of every placed item of size at least 1x1 is not free. */
  lemma PlacedNotFree(g: Grid, ps: seq<Placement>, k: nat)
    requires Accounts(g, ps) && k < |ps| && ps[k].size.x >= 1 && ps[k].size.y >= 1
    ensures !g.AreaFree(ps[k].pos, ps[k].size)
  {
    var c := ps[k].pos;
    assert ps[k].Covers(c.x, c.y);
    assert g.InGrid(c.x, c.y);
    assert Covered(ps, c.x, c.y);
  }

  /**
   * With items placed, clearing one of them frees exactly its footprint: its
   * area becomes free and the area of every other item stays occupied.
   */
  lemma ClearOneKeepsOthers(g: Grid, ps: seq<Placement>, k: nat, m: nat)
    requires Accounts(g, ps) && k < |ps| && m < |ps| && k != m
    requires ps[m].size.x >= 1 && ps[m].size.y >= 1
    ensures g.Mark(ps[k].pos, ps[k].size, false).AreaFree(ps[k].pos, ps[k].size)
    ensures !g.Mark(ps[k].pos, ps[k].size, false).AreaFree(ps[m].pos, ps[m].size)
  {
    ClearedFree(g, ps[k].pos, ps[k].size);
    ClearKeepsAccounts(g, ps, k);
    var m1 := if m < k then m else m - 1;
    assert Without(ps, k)[m1] == ps[m];
    PlacedNotFree(g.Mark(ps[k].pos, ps[k].size, false), Without(ps, k), m1);
  }
}
