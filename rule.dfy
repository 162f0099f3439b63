/** The Game of Life transition rule, as each worker applies it to one cell. */
module Rule {
  import opened Grid

  /** 1 when the cell reads as live, 0 otherwise; off-grid cells read as dead. */
  function Live(g: seq<bool>, w: int, h: int, x: int, y: int): nat
    requires Shaped(g, w, h)
  {
    if GetUnwrap(g, w, h, x, y) then 1 else 0
  }

  /** The number of live cells among the eight around (x, y), summed in the worker's order. */
  function Neighbors(g: seq<bool>, w: int, h: int, x: int, y: int): (n: nat)
    requires Shaped(g, w, h)
    ensures n <= 8
  {
    Live(g, w, h, x - 1, y - 1) + Live(g, w, h, x, y - 1) + Live(g, w, h, x + 1, y - 1)
    + Live(g, w, h, x - 1, y) + Live(g, w, h, x + 1, y)
    + Live(g, w, h, x - 1, y + 1) + Live(g, w, h, x, y + 1) + Live(g, w, h, x + 1, y + 1)
  }

  /** The live in-grid cells of the Moore neighbourhood of (x, y), the cell itself excluded. */
  ghost function LiveAround(g: seq<bool>, w: int, h: int, x: int, y: int): set<(int, int)>
    requires Shaped(g, w, h)
  {
    set a, b | x - 1 <= a <= x + 1 && y - 1 <= b <= y + 1 && (a, b) != (x, y)
                 && InBounds(w, h, a, b) && GetUnwrap(g, w, h, a, b) :: (a, b)
  }

  /** The live cells listed in cells, as a set. */
  ghost function LiveAmong(g: seq<bool>, w: int, h: int, cells: seq<(int, int)>): set<(int, int)>
    requires Shaped(g, w, h)
  {
    set p | p in cells && GetUnwrap(g, w, h, p.0, p.1)
  }

  /** How many of the cells listed in cells read as live. */
  function CountLive(g: seq<bool>, w: int, h: int, cells: seq<(int, int)>): nat
    requires Shaped(g, w, h)
  {
    if cells == [] then 0 else Live(g, w, h, cells[0].0, cells[0].1) + CountLive(g, w, h, cells[1..])
  }

  /** Counting the live cells of a list without repetitions gives the size of their set. */
  lemma {:induction false} CountLiveIsCardinality(g: seq<bool>, w: int, h: int, cells: seq<(int, int)>)
    requires Shaped(g, w, h)
    requires forall i, j | 0 <= i < j < |cells| :: cells[i] != cells[j]
    ensures CountLive(g, w, h, cells) == |LiveAmong(g, w, h, cells)|
  {
    if cells != [] {
      var p, rest := cells[0], cells[1..];
      CountLiveIsCardinality(g, w, h, rest);
      assert p !in rest by {
        forall k | 0 <= k < |rest| ensures rest[k] != p {
          assert rest[k] == cells[k + 1];
        }
      }
      var head := if GetUnwrap(g, w, h, p.0, p.1) then {p} else {};
      assert LiveAmong(g, w, h, cells) == head + LiveAmong(g, w, h, rest);
      assert head !! LiveAmong(g, w, h, rest);
    }
  }

  /** The eight cells around (x, y), in the order the worker visits them. */
  function Ring(x: int, y: int): seq<(int, int)> {
    [(x - 1, y - 1), (x, y - 1), (x + 1, y - 1), (x - 1, y), (x + 1, y),
     (x - 1, y + 1), (x, y + 1), (x + 1, y + 1)]
  }

  lemma NeighborsIsCountLive(g: seq<bool>, w: int, h: int, x: int, y: int)
    requires Shaped(g, w, h)
    ensures Neighbors(g, w, h, x, y) == CountLive(g, w, h, Ring(x, y))
  {
    var ring := Ring(x, y);
    assert CountLive(g, w, h, ring[8..]) == 0;
    assert CountLive(g, w, h, ring[7..]) == Live(g, w, h, x + 1, y + 1) + CountLive(g, w, h, ring[8..]);
    assert CountLive(g, w, h, ring[6..]) == Live(g, w, h, x, y + 1) + CountLive(g, w, h, ring[7..]);
    assert CountLive(g, w, h, ring[5..]) == Live(g, w, h, x - 1, y + 1) + CountLive(g, w, h, ring[6..]);
    assert CountLive(g, w, h, ring[4..]) == Live(g, w, h, x + 1, y) + CountLive(g, w, h, ring[5..]);
    assert CountLive(g, w, h, ring[3..]) == Live(g, w, h, x - 1, y) + CountLive(g, w, h, ring[4..]);
    assert CountLive(g, w, h, ring[2..]) == Live(g, w, h, x + 1, y - 1) + CountLive(g, w, h, ring[3..]);
    assert CountLive(g, w, h, ring[1..]) == Live(g, w, h, x, y - 1) + CountLive(g, w, h, ring[2..]);
  }

  /** The ring lists each cell of the Moore neighbourhood once and leaves out the centre. */
  lemma RingIsNeighbourhood(x: int, y: int)
    ensures forall i, j | 0 <= i < j < 8 :: Ring(x, y)[i] != Ring(x, y)[j]
    ensures forall a, b :: (a, b) in Ring(x, y)
              <==> x - 1 <= a <= x + 1 && y - 1 <= b <= y + 1 && (a, b) != (x, y)
  {
  }

  /** The neighbour count is the number of live in-grid neighbours: the cell itself is not
      counted and a neighbour off the grid adds nothing. */
  lemma NeighborsCountLiveAround(g: seq<bool>, w: int, h: int, x: int, y: int)
    requires Shaped(g, w, h)
    ensures Neighbors(g, w, h, x, y) == |LiveAround(g, w, h, x, y)|
  {
    NeighborsIsCountLive(g, w, h, x, y);
    RingIsNeighbourhood(x, y);
    CountLiveIsCardinality(g, w, h, Ring(x, y));
    forall p ensures p in LiveAmong(g, w, h, Ring(x, y)) <==> p in LiveAround(g, w, h, x, y) {
      assert p in Ring(x, y) <==> x - 1 <= p.0 <= x + 1 && y - 1 <= p.1 <= y + 1 && p != (x, y) by {
        assert p == (p.0, p.1);
      }
    }
    assert LiveAmong(g, w, h, Ring(x, y)) == LiveAround(g, w, h, x, y);
  }

  /** The next state of a cell from its state and its neighbour count, branch for branch as
      the worker decides it: it first copies the old state, then overrides it. */
  function NextState(alive: bool, n: int): (r: bool)
    ensures r <==> n == 3 || (alive && n == 2)
    ensures alive && n < 2 ==> !r
    ensures alive && (n == 2 || n == 3) ==> r
    ensures alive && n > 3 ==> !r
    ensures !alive && n == 3 ==> r
    ensures !alive && n != 3 ==> !r
  {
    if alive then
      if n < 2 then false
      else if n == 2 || n == 3 then true
      else if n > 3 then false
      else alive
    else
      if n == 3 then true else alive
  }

  /** The state cell (x, y) takes in the next generation. */
  function NextCell(g: seq<bool>, w: int, h: int, x: int, y: int): (alive: bool)
    requires Shaped(g, w, h)
    ensures alive <==> |LiveAround(g, w, h, x, y)| == 3
                       || (GetUnwrap(g, w, h, x, y) && |LiveAround(g, w, h, x, y)| == 2)
  {
    NeighborsCountLiveAround(g, w, h, x, y);
    NextState(GetUnwrap(g, w, h, x, y), Neighbors(g, w, h, x, y))
  }

  /** The whole next generation, slot by slot (an empty grid has no slot to compute). */
  function Generation(g: seq<bool>, w: int, h: int): (r: seq<bool>)
    requires Shaped(g, w, h)
    ensures Shaped(r, w, h)
  {
    seq(|g|, i requires 0 <= i < |g| => if w == 0 then false else var c := CellOf(w, i); NextCell(g, w, h, c.0, c.1))
  }

  /** Each in-grid cell of the next generation is the rule applied to that cell. */
  lemma GenerationAt(g: seq<bool>, w: int, h: int, x: int, y: int)
    requires Shaped(g, w, h)
    ensures GetUnwrap(Generation(g, w, h), w, h, x, y) == (InBounds(w, h, x, y) && NextCell(g, w, h, x, y))
  {
    if InBounds(w, h, x, y) {
      GetInBuffer(w, h, x, y);
      CellOfIndex(w, x, y);
    }
  }
}
