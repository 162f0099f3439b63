/** The split of one simulation step into column bands, one per worker.

    Band i covers columns [ceil(i * w / n), ceil((i + 1) * w / n)) over the whole height.
    The program computes the bounds in floating point; here they are exact ceilings. */
module Partition {
  import opened Arith
  import opened Grid

  /** The number of workers one step is split across. */
  const ThreadCount: int := 12

  /** The rectangle of cells one worker computes: columns [minX, maxX), rows [minY, maxY). */
  datatype Band = Band(minX: int, maxX: int, minY: int, maxY: int)

  /** The exact ceiling of a / n. */
  function CeilDiv(a: int, n: int): (c: int)
    requires n > 0
    ensures (c - 1) * n < a <= c * n
  {
    (a + n - 1) / n
  }

  /** Moving the numerator of a ceiling by w moves the ceiling by floor(w / n) or one more. */
  lemma CeilDivStep(a: int, w: int, n: int)
    requires n > 0 && w >= 0
    ensures w / n <= CeilDiv(a + w, n) - CeilDiv(a, n) <= w / n + 1
  {
    var c0, c1, q := CeilDiv(a, n), CeilDiv(a + w, n), w / n;
    Distrib(q, 1, n);
    assert q * n <= w < (q + 1) * n;
    // c1 * n >= a + w and (c0 - 1) * n < a, so (c1 - c0 + 1) * n > w >= q * n
    Distrib(c1 - c0, c0 - 1, n);
    MulLessCancel(q, c1 - c0 + 1, n);
    // (c1 - 1) * n < a + w and c0 * n >= a, so (c1 - 1 - c0) * n < w < (q + 1) * n
    Distrib(c1 - 1 - c0, c0, n);
    MulLessCancel(c1 - 1 - c0, q + 1, n);
  }

  /** The first column of band i, which is also the end of band i - 1. */
  function Boundary(i: int, w: int, n: int): int
    requires n > 0
  {
    CeilDiv(i * w, n)
  }

  /** The band worker i of n computes on a w x h grid. */
  function MakeBand(i: int, w: int, h: int, n: int): Band
    requires n > 0
  {
    Band(Boundary(i, w, n), Boundary(i + 1, w, n), 0, h)
  }

  /** Whether column c lies in band b. */
  predicate HasColumn(b: Band, c: int) {
    b.minX <= c < b.maxX
  }

  /** Whether cell (x, y) lies in band b. */
  predicate InBand(b: Band, x: int, y: int) {
    HasColumn(b, x) && b.minY <= y < b.maxY
  }

  /** The bands of one step, worker by worker. */
  function Bands(w: int, h: int, n: int): (bs: seq<Band>)
    requires n > 0
    ensures |bs| == n
  {
    seq(n, i requires 0 <= i < n => MakeBand(i, w, h, n))
  }

  /** The first band starts at column 0 and the last one ends at column w. */
  lemma BoundaryEnds(w: int, n: int)
    requires n > 0 && w >= 0
    ensures Boundary(0, w, n) == 0
    ensures Boundary(n, w, n) == w
  {
    var c := Boundary(n, w, n);
    assert (c - 1) * n < w * n <= c * n;
    MulLessCancel(c - 1, w, n);
    Distrib(w, -1, n);
    MulLessCancel(w - 1, c, n);
  }

  /** Every band is floor(w / n) or floor(w / n) + 1 columns wide. */
  lemma BandWidth(i: int, w: int, n: int)
    requires n > 0 && w >= 0
    ensures w / n <= Boundary(i + 1, w, n) - Boundary(i, w, n) <= w / n + 1
  {
    Distrib(i, 1, w);
    CeilDivStep(i * w, w, n);
  }

  /** Any two bands of one step differ in width by at most one column. */
  lemma BandWidthsBalanced(i: int, j: int, w: int, n: int)
    requires n > 0 && w >= 0
    ensures -1 <= (Boundary(i + 1, w, n) - Boundary(i, w, n)) - (Boundary(j + 1, w, n) - Boundary(j, w, n)) <= 1
  {
    BandWidth(i, w, n);
    BandWidth(j, w, n);
  }

  /** Boundaries never decrease from one band to the next. */
  lemma {:induction false} BoundaryMonotone(i: int, j: int, w: int, n: int)
    requires n > 0 && w >= 0 && i <= j
    ensures Boundary(i, w, n) <= Boundary(j, w, n)
    decreases j - i
  {
    if i < j {
      BandWidth(i, w, n);
      BoundaryMonotone(i + 1, j, w, n);
    }
  }

  /** The boundaries of the built-in 500-column grid split across 12 workers: bands of 41 and
      42 columns, in the order the ceilings fall. */
  lemma BuiltInBoundaries()
    ensures seq(ThreadCount + 1, i => Boundary(i, GridWidth, ThreadCount))
         == [0, 42, 84, 125, 167, 209, 250, 292, 334, 375, 417, 459, 500]
  {
  }

  /** Every band of a step lies inside columns [0, w). */
  lemma BandInGrid(i: int, w: int, n: int)
    requires n > 0 && w >= 0 && 0 <= i < n
    ensures 0 <= Boundary(i, w, n) <= Boundary(i + 1, w, n) <= w
  {
    BoundaryEnds(w, n);
    BoundaryMonotone(0, i, w, n);
    BoundaryMonotone(i, i + 1, w, n);
    BoundaryMonotone(i + 1, n, w, n);
  }

  /** The worker whose band holds column c: floor(c * n / w). */
  function Owner(c: int, w: int, n: int): int
    requires w > 0
  {
    c * n / w
  }

  lemma FloorDivBounds(a: int, w: int)
    requires w > 0
    ensures (a / w) * w <= a < (a / w + 1) * w
  {
    Distrib(a / w, 1, w);
  }

  /** The ceiling of a / n is at most c exactly when a <= c * n. */
  lemma CeilDivAtMost(a: int, c: int, n: int)
    requires n > 0
    ensures CeilDiv(a, n) <= c <==> a <= c * n
  {
    var b := CeilDiv(a, n);
    if a <= c * n {
      MulLessCancel(b - 1, c, n);
    }
    if b <= c {
      MulMono(b, c, n);
    }
  }

  /** A quotient by w of a value below n * w is below n. */
  lemma QuotientBelowCount(a: int, w: int, n: int)
    requires w > 0 && 0 <= a < n * w
    ensures 0 <= a / w < n
  {
    var q := a / w;
    FloorDivBounds(a, w);
    assert q * w < n * w;
    MulLessCancel(q, n, w);
  }

  /** Every column of the grid has an owner among the n workers. */
  lemma OwnerInRange(c: int, w: int, n: int)
    requires n > 0 && 0 <= c < w
    ensures 0 <= Owner(c, w, n) < n
  {
    MulMono(c + 1, w, n);
    Distrib(c, 1, n);
    assert c * n < n * w;
    QuotientBelowCount(c * n, w, n);
  }

  /** Column c of the grid lies in the band of worker Owner(c, w, n). */
  lemma OwnerHasColumn(c: int, w: int, n: int)
    requires n > 0 && 0 <= c < w
    ensures 0 <= Owner(c, w, n) < n
    ensures Boundary(Owner(c, w, n), w, n) <= c < Boundary(Owner(c, w, n) + 1, w, n)
  {
    OwnerInRange(c, w, n);
    var a, i := c * n, Owner(c, w, n);
    FloorDivBounds(a, w);
    CeilDivAtMost(i * w, c, n);
    Distrib(i, 1, w);
    CeilDivAtMost((i + 1) * w, c, n);
  }

  /** The bands of a step tile the grid: each column of [0, w) lies in exactly one band, the one
      of its owner, every
      band spans the whole height, and a band after the first starts where the previous one ends. */
  lemma BandsTile(w: int, h: int, n: int)
    requires n > 0 && w >= 0
    ensures Bands(w, h, n)[0].minX == 0 && Bands(w, h, n)[n - 1].maxX == w
    ensures forall i | 0 < i < n :: Bands(w, h, n)[i].minX == Bands(w, h, n)[i - 1].maxX
    ensures forall i | 0 <= i < n :: Bands(w, h, n)[i].minY == 0 && Bands(w, h, n)[i].maxY == h
    ensures forall c | 0 <= c < w :: 0 <= Owner(c, w, n) < n && HasColumn(Bands(w, h, n)[Owner(c, w, n)], c)
    ensures forall i, j, c | 0 <= i < n && 0 <= j < n
              && HasColumn(Bands(w, h, n)[i], c) && HasColumn(Bands(w, h, n)[j], c) :: i == j
  {
    var bs := Bands(w, h, n);
    BoundaryEnds(w, n);
    forall c | 0 <= c < w ensures 0 <= Owner(c, w, n) < n && HasColumn(bs[Owner(c, w, n)], c) {
      OwnerHasColumn(c, w, n);
    }
    forall i, j, c | 0 <= i < n && 0 <= j < n && HasColumn(bs[i], c) && HasColumn(bs[j], c)
      ensures i == j
    {
      if i < j {
        BoundaryMonotone(i + 1, j, w, n);
      } else if j < i {
        BoundaryMonotone(j + 1, i, w, n);
      }
    }
  }
}
