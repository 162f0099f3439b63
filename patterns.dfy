/** Small patterns whose evolution is known: a still life and an oscillator. */
module Patterns {
  import opened Grid
  import opened Rule

  /** A 2 x 2 block of live cells, columns and rows 1 and 2, in the middle of a 4 x 4 grid. */
  function Block(): (g: seq<bool>)
    ensures Shaped(g, 4, 4)
  {
    seq(16, k => 1 <= k / 4 <= 2 && 1 <= k % 4 <= 2)
  }

  /** A blinker lying across a 3 x 3 grid: the middle row, y == 1. */
  function BlinkerAcross(): (g: seq<bool>)
    ensures Shaped(g, 3, 3)
  {
    seq(9, k => k % 3 == 1)
  }

  /** A blinker standing in a 3 x 3 grid: the middle column, x == 1. */
  function BlinkerDown(): (g: seq<bool>)
    ensures Shaped(g, 3, 3)
  {
    seq(9, k => k / 3 == 1)
  }

  /** A step turns g into r when the rule gives r's value at every cell. */
  lemma GenerationFromCells(g: seq<bool>, r: seq<bool>, w: int, h: int)
    requires Shaped(g, w, h) && Shaped(r, w, h)
    requires forall x, y | InBounds(w, h, x, y) :: NextCell(g, w, h, x, y) == GetUnwrap(r, w, h, x, y)
    ensures Generation(g, w, h) == r
  {
    forall x, y ensures GetUnwrap(Generation(g, w, h), w, h, x, y) == GetUnwrap(r, w, h, x, y) {
      GenerationAt(g, w, h, x, y);
    }
    ReadsDetermineBuffer(Generation(g, w, h), r, w, h);
  }

  /** The block reads live exactly on columns and rows 1 and 2. */
  lemma BlockAt(x: int, y: int)
    ensures GetUnwrap(Block(), 4, 4, x, y) == (1 <= x <= 2 && 1 <= y <= 2)
  {
    if InBounds(4, 4, x, y) {
      assert Index(4, x, y) / 4 == x && Index(4, x, y) % 4 == y;
    }
  }

  /** The lying blinker reads live exactly on row 1. */
  lemma BlinkerAcrossAt(x: int, y: int)
    ensures GetUnwrap(BlinkerAcross(), 3, 3, x, y) == (0 <= x < 3 && y == 1)
  {
    if InBounds(3, 3, x, y) {
      assert Index(3, x, y) % 3 == y;
    }
  }

  /** The standing blinker reads live exactly on column 1. */
  lemma BlinkerDownAt(x: int, y: int)
    ensures GetUnwrap(BlinkerDown(), 3, 3, x, y) == (x == 1 && 0 <= y < 3)
  {
    if InBounds(3, 3, x, y) {
      assert Index(3, x, y) / 3 == x;
    }
  }

  /** A cell of the block's grid sees the live cells of its window on 1 or 2 columns and 1 or
      2 rows, less itself: the block's own cells see 3, the cells around it 1 or 2. */
  lemma BlockNeighbors(x: int, y: int)
    requires InBounds(4, 4, x, y)
    ensures Neighbors(Block(), 4, 4, x, y)
         == (if 1 <= x <= 2 then 2 else 1) * (if 1 <= y <= 2 then 2 else 1)
            - (if 1 <= x <= 2 && 1 <= y <= 2 then 1 else 0)
  {
    BlockAt(x - 1, y - 1); BlockAt(x, y - 1); BlockAt(x + 1, y - 1);
    BlockAt(x - 1, y); BlockAt(x + 1, y);
    BlockAt(x - 1, y + 1); BlockAt(x, y + 1); BlockAt(x + 1, y + 1);
  }

  /** Around the lying blinker a cell sees the blinker's cells in its window, 3 in the middle
      column and 2 elsewhere, less itself. */
  lemma BlinkerAcrossNeighbors(x: int, y: int)
    requires InBounds(3, 3, x, y)
    ensures Neighbors(BlinkerAcross(), 3, 3, x, y)
         == (if x == 1 then 3 else 2) - (if y == 1 then 1 else 0)
  {
    BlinkerAcrossAt(x - 1, y - 1); BlinkerAcrossAt(x, y - 1); BlinkerAcrossAt(x + 1, y - 1);
    BlinkerAcrossAt(x - 1, y); BlinkerAcrossAt(x + 1, y);
    BlinkerAcrossAt(x - 1, y + 1); BlinkerAcrossAt(x, y + 1); BlinkerAcrossAt(x + 1, y + 1);
  }

  /** Around the standing blinker a cell sees the blinker's cells in its window, 3 in the middle
      row and 2 elsewhere, less itself. */
  lemma BlinkerDownNeighbors(x: int, y: int)
    requires InBounds(3, 3, x, y)
    ensures Neighbors(BlinkerDown(), 3, 3, x, y)
         == (if y == 1 then 3 else 2) - (if x == 1 then 1 else 0)
  {
    BlinkerDownAt(x - 1, y - 1); BlinkerDownAt(x, y - 1); BlinkerDownAt(x + 1, y - 1);
    BlinkerDownAt(x - 1, y); BlinkerDownAt(x + 1, y);
    BlinkerDownAt(x - 1, y + 1); BlinkerDownAt(x, y + 1); BlinkerDownAt(x + 1, y + 1);
  }

  /** The block is a still life: one step leaves every cell, in and around it, as it was. */
  lemma BlockIsStill()
    ensures Generation(Block(), 4, 4) == Block()
  {
    var g := Block();
    forall x, y | InBounds(4, 4, x, y)
      ensures NextCell(g, 4, 4, x, y) == GetUnwrap(g, 4, 4, x, y)
    {
      BlockNeighbors(x, y);
      BlockAt(x, y);
    }
    GenerationFromCells(g, g, 4, 4);
  }

  /** The blinker turns from a row into a column in one step. */
  lemma BlinkerTurnsDown()
    ensures Generation(BlinkerAcross(), 3, 3) == BlinkerDown()
  {
    var g, r := BlinkerAcross(), BlinkerDown();
    forall x, y | InBounds(3, 3, x, y)
      ensures NextCell(g, 3, 3, x, y) == GetUnwrap(r, 3, 3, x, y)
    {
      BlinkerAcrossNeighbors(x, y);
      BlinkerAcrossAt(x, y);
      BlinkerDownAt(x, y);
    }
    GenerationFromCells(g, r, 3, 3);
  }

  /** The blinker turns from a column back into a row in one step. */
  lemma BlinkerTurnsAcross()
    ensures Generation(BlinkerDown(), 3, 3) == BlinkerAcross()
  {
    var g, r := BlinkerDown(), BlinkerAcross();
    forall x, y | InBounds(3, 3, x, y)
      ensures NextCell(g, 3, 3, x, y) == GetUnwrap(r, 3, 3, x, y)
    {
      BlinkerDownNeighbors(x, y);
      BlinkerDownAt(x, y);
      BlinkerAcrossAt(x, y);
    }
    GenerationFromCells(g, r, 3, 3);
  }
}
