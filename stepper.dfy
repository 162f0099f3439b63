/** One simulation step: each worker fills its band of the next buffer from the current one,
    and the step runs one worker per band until the whole grid is written. */
module Stepper {
  import opened Grid
  import opened Rule
  import opened Partition

  /** A band a worker can finish: it holds no cell, or it lies inside the grid. */
  predicate Fits(b: Band, w: int, h: int) {
    b.minX >= b.maxX || b.minY >= b.maxY || (0 <= b.minX && b.maxX <= w && 0 <= b.minY && b.maxY <= h)
  }

  /** A worker: writes the next state of every cell of its band into next, reading only current.
      It stops with ok == false (the program exits) when it meets a band cell off the grid. */
  method Worker(current: array<bool>, next: array<bool>, w: int, h: int, band: Band) returns (ok: bool)
    requires Shaped(current[..], w, h) && next.Length == current.Length && current != next
    modifies next
    ensures ok <==> Fits(band, w, h)
    ensures ok ==> forall x, y | InBand(band, x, y) ::
              InBounds(w, h, x, y) && GetUnwrap(next[..], w, h, x, y) == NextCell(current[..], w, h, x, y)
    ensures forall x, y | !InBand(band, x, y) ::
              GetUnwrap(next[..], w, h, x, y) == GetUnwrap(old(next[..]), w, h, x, y)
  {
    ghost var g, before := current[..], next[..];
    var x := band.minX;
    while x < band.maxX
      invariant band.minX <= x && (x <= band.maxX || x == band.minX)
      invariant x > band.minX && band.minY < band.maxY ==>
                  InBounds(w, h, band.minX, band.minY) && InBounds(w, h, x - 1, band.maxY - 1)
      invariant forall cx, cy ::
                  GetUnwrap(next[..], w, h, cx, cy)
                  == if band.minX <= cx < x && band.minY <= cy < band.maxY
                     then NextCell(g, w, h, cx, cy) else GetUnwrap(before, w, h, cx, cy)
    {
      var y := band.minY;
      while y < band.maxY
        invariant band.minY <= y && (y <= band.maxY || y == band.minY)
        invariant y > band.minY ==> InBounds(w, h, x, band.minY) && InBounds(w, h, x, y - 1)
        invariant forall cx, cy ::
                    GetUnwrap(next[..], w, h, cx, cy)
                    == if (band.minX <= cx < x && band.minY <= cy < band.maxY) || (cx == x && band.minY <= cy < y)
                       then NextCell(g, w, h, cx, cy) else GetUnwrap(before, w, h, cx, cy)
      {
        var alive := GetUnwrap(current[..], w, h, x, y);
        var neighbors := Neighbors(current[..], w, h, x, y);
        var slot := Get(w, h, x, y);
        if slot.Miss? {
          return false;
        }
        ghost var was := next[..];
        GetInBuffer(w, h, x, y);
        next[slot.index] := NextState(alive, neighbors);
        assert next[..] == SetCell(was, w, h, x, y, NextState(alive, neighbors));
        forall cx, cy ensures GetUnwrap(next[..], w, h, cx, cy)
                              == if cx == x && cy == y then NextCell(g, w, h, cx, cy) else GetUnwrap(was, w, h, cx, cy) {
          ReadAfterSetCell(was, w, h, x, y, NextState(alive, neighbors), cx, cy);
        }
        y := y + 1;
      }
      x := x + 1;
    }
    return true;
  }

  /** One step of the simulation: next receives the next generation of current, band by band. */
  method GameStep(current: array<bool>, next: array<bool>, w: int, h: int)
    requires Shaped(current[..], w, h) && next.Length == current.Length && current != next
    modifies next
    ensures next[..] == Generation(current[..], w, h)
  {
    ghost var g := current[..];
    var threadCount := ThreadCount;
    BoundaryEnds(w, threadCount);
    var i := 0;
    while i < threadCount
      invariant 0 <= i <= threadCount
      invariant forall x, y | InBounds(w, h, x, y) && x < Boundary(i, w, threadCount) ::
                  GetUnwrap(next[..], w, h, x, y) == NextCell(g, w, h, x, y)
    {
      var band := MakeBand(i, w, h, threadCount);
      BandInGrid(i, w, threadCount);
      var ok := Worker(current, next, w, h, band);
      assert ok;
      i := i + 1;
    }
    forall x, y ensures GetUnwrap(next[..], w, h, x, y) == GetUnwrap(Generation(g, w, h), w, h, x, y) {
      GenerationAt(g, w, h, x, y);
    }
    ReadsDetermineBuffer(next[..], Generation(g, w, h), w, h);
  }
}
