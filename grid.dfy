/** The flat cell buffers of the simulation and their bounds-checked accessors.

    A buffer holds width * height cells; cell (x, y) lives at slot x * width + y.
    The column index is scaled by the width although y ranges over the height, so
    the layout is sound for square grids: every in-bounds slot lies inside the
    buffer when width <= height, and distinct cells get distinct slots when
    height <= width. Two small grids show each property failing once the
    inequality is reversed. The program is built with 500 x 500. */
module Grid {
  import opened Arith

  /** The dimensions the program is built with. */
  const GridWidth: int := 500
  const GridHeight: int := 500

  /** Whether (x, y) names a cell of a w x h grid. */
  predicate InBounds(w: int, h: int, x: int, y: int) {
    0 <= x < w && 0 <= y < h
  }

  /** The slot that holds cell (x, y) in a grid of width w. */
  function Index(w: int, x: int, y: int): int {
    x * w + y
  }

  /** The cell stored at slot i: the inverse of Index. */
  function CellOf(w: int, i: int): (c: (int, int))
    requires w > 0
    ensures Index(w, c.0, c.1) == i && 0 <= c.1 < w
    ensures 0 <= i < w * w ==> 0 <= c.0 < w
  {
    QuotientBelow(w, i);
    (i / w, i % w)
  }

  lemma QuotientBelow(w: int, i: int)
    requires w > 0
    ensures 0 <= i < w * w ==> 0 <= i / w < w
  {
    if 0 <= i < w * w && i / w >= w {
      MulMono(w, i / w, w);
    }
  }

  /** Index followed by CellOf gives the cell back, for every row below the width. */
  lemma CellOfIndex(w: int, x: int, y: int)
    requires 0 <= y < w
    ensures CellOf(w, Index(w, x, y)) == (x, y)
  {
    var q := CellOf(w, Index(w, x, y)).0;
    if q < x {
      MulMono(q + 1, x, w);
      Distrib(q, 1, w);
    } else if q > x {
      MulMono(x + 1, q, w);
      Distrib(x, 1, w);
    }
  }

  /** The result of a lookup: no slot for a coordinate off the grid, the slot index otherwise. */
  datatype Slot = Miss | Hit(index: int)

  /** The bounds-checked lookup: it fails exactly off the grid. */
  function Get(w: int, h: int, x: int, y: int): (r: Slot)
    ensures r.Hit? <==> InBounds(w, h, x, y)
    ensures r.Hit? ==> r.index == Index(w, x, y)
  {
    if !InBounds(w, h, x, y) then Miss else Hit(Index(w, x, y))
  }

  /** A successful lookup stays inside a w * h buffer when the grid is no wider than tall. */
  lemma GetInBuffer(w: int, h: int, x: int, y: int)
    requires 0 <= w <= h
    requires Get(w, h, x, y).Hit?
    ensures 0 <= Get(w, h, x, y).index < w * h
  {
    MulMono(x, w - 1, w);
    MulMono(0, h - w, w - 1);
    assert (w - 1) * w + (h - 1) - w * h == (h - w) * (1 - w) - 1;
  }

  /** Distinct cells get distinct slots when the grid is no taller than wide. */
  lemma GetInjective(w: int, h: int, x1: int, y1: int, x2: int, y2: int)
    requires 0 <= h <= w
    requires Get(w, h, x1, y1).Hit? && Get(w, h, x2, y2).Hit?
    requires Get(w, h, x1, y1) == Get(w, h, x2, y2)
    ensures x1 == x2 && y1 == y2
  {
    CellOfIndex(w, x1, y1);
    CellOfIndex(w, x2, y2);
  }

  /** On a grid taller than wide two cells share a slot. */
  lemma TallGridSharesSlots()
    ensures Get(2, 3, 0, 2) == Get(2, 3, 1, 0) == Hit(2)
  {
  }

  /** On a grid wider than tall a cell's slot lies past the end of the buffer. */
  lemma WideGridOverruns()
    ensures Get(3, 2, 2, 1) == Hit(7) && 7 >= 3 * 2
  {
  }

  /** A buffer laid out as the program lays it out: square, width * height slots. */
  predicate Shaped(g: seq<bool>, w: int, h: int) {
    0 <= w && w == h && |g| == w * h
  }

  /** The read used by the transition rule: a cell off the grid reads as dead. */
  function GetUnwrap(g: seq<bool>, w: int, h: int, x: int, y: int): (alive: bool)
    requires Shaped(g, w, h)
    ensures !InBounds(w, h, x, y) ==> !alive
    ensures InBounds(w, h, x, y) ==> 0 <= Index(w, x, y) < |g| && alive == g[Index(w, x, y)]
  {
    match Get(w, h, x, y)
    case Miss => false
    case Hit(i) => GetInBuffer(w, h, x, y); g[i]
  }

  /** Two buffers of one shape that read alike at every cell are the same buffer. */
  lemma ReadsDetermineBuffer(a: seq<bool>, b: seq<bool>, w: int, h: int)
    requires Shaped(a, w, h) && Shaped(b, w, h)
    requires forall x, y :: GetUnwrap(a, w, h, x, y) == GetUnwrap(b, w, h, x, y)
    ensures a == b
  {
    forall k | 0 <= k < |a| ensures a[k] == b[k] {
      var c := CellOf(w, k);
      assert GetUnwrap(a, w, h, c.0, c.1) == GetUnwrap(b, w, h, c.0, c.1);
    }
  }

  /** A guarded point write, as the paint and erase keys do it: ignored off the grid. */
  function SetCell(g: seq<bool>, w: int, h: int, x: int, y: int, alive: bool): (r: seq<bool>)
    requires Shaped(g, w, h)
    ensures Shaped(r, w, h)
  {
    if InBounds(w, h, x, y) then
      GetInBuffer(w, h, x, y);
      g[Index(w, x, y) := alive]
    else
      g
  }

  /** Reading back a written cell gives the written value; every other cell reads as before. */
  lemma ReadAfterSetCell(g: seq<bool>, w: int, h: int, x: int, y: int, alive: bool, x': int, y': int)
    requires Shaped(g, w, h)
    ensures GetUnwrap(SetCell(g, w, h, x, y, alive), w, h, x', y')
         == if InBounds(w, h, x, y) && x' == x && y' == y then alive else GetUnwrap(g, w, h, x', y')
  {
    if InBounds(w, h, x, y) && InBounds(w, h, x', y') && (x', y') != (x, y) {
      if Index(w, x', y') == Index(w, x, y) {
        GetInjective(w, h, x', y', x, y);
      }
    }
  }
}
