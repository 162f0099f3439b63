/** The two cell buffers of the running program, the flag that says which one is current,
    and what one pass of the main loop does to them: a step, then the key-driven edits. */
module Engine {
  import opened Arith
  import opened Grid
  import opened Rule
  import opened Stepper

  /** Screen pixels per cell in each direction. */
  const CellWidth: int := 1
  const CellHeight: int := 1

  /** The buffer that is current: grid2 when flipped, grid1 otherwise. */
  function CurrentGrid(grid1: array<bool>, grid2: array<bool>, flipped: bool): (g: array<bool>)
    requires grid1 != grid2
    ensures g == grid2 <==> flipped
    ensures g == grid1 <==> !flipped
  {
    if flipped then grid2 else grid1
  }

  /** What the main loop reads in one pass: the randomize key and the outcomes of the random
      draws it would make, the pause key, the paint and erase keys, and the mouse position. */
  datatype Input = Input(randomize: bool, draws: seq<bool>, togglePause: bool,
                         paint: bool, erase: bool, mouseX: int, mouseY: int)

  /** The cell under the mouse. The divisors are 1, so C's truncating division and Dafny's
      Euclidean one agree, and the cell is the mouse position itself. */
  function MouseCell(input: Input): (c: (int, int))
    ensures c == (input.mouseX, input.mouseY)
  {
    (input.mouseX / CellWidth, input.mouseY / CellHeight)
  }

  /** The paint key makes the cell under the mouse live, then the erase key makes it dead. */
  function ApplyEdits(g: seq<bool>, w: int, h: int, input: Input): (r: seq<bool>)
    requires Shaped(g, w, h)
    ensures Shaped(r, w, h)
  {
    var (x, y) := MouseCell(input);
    var painted := if input.paint then SetCell(g, w, h, x, y, true) else g;
    if input.erase then SetCell(painted, w, h, x, y, false) else painted
  }

  /** The edits change at most the cell under the mouse, and only when it is on the grid:
      erase wins over paint, and with neither key down nothing changes. */
  lemma ApplyEditsAt(g: seq<bool>, w: int, h: int, input: Input, x: int, y: int)
    requires Shaped(g, w, h)
    ensures GetUnwrap(ApplyEdits(g, w, h, input), w, h, x, y)
         == if InBounds(w, h, x, y) && (x, y) == MouseCell(input) && (input.paint || input.erase)
            then !input.erase
            else GetUnwrap(g, w, h, x, y)
  {
    var (mx, my) := MouseCell(input);
    var painted := if input.paint then SetCell(g, w, h, mx, my, true) else g;
    if input.paint {
      ReadAfterSetCell(g, w, h, mx, my, true, x, y);
    }
    if input.erase {
      ReadAfterSetCell(painted, w, h, mx, my, false, x, y);
    }
  }

  /** The running simulation: two buffers that never alias and the flags of the main loop. */
  class Life {
    const width: int
    const height: int
    const grid1: array<bool>
    const grid2: array<bool>
    var flipped: bool
    var paused: bool

    ghost predicate Valid()
      reads this
    {
      0 <= width && width == height && grid1 != grid2
      && grid1.Length == width * height && grid2.Length == width * height
    }

    /** Allocates both buffers at the built-in size; their contents are left unspecified. */
    constructor ()
      ensures Valid() && fresh(grid1) && fresh(grid2)
      ensures width == GridWidth && height == GridHeight
      ensures !flipped && !paused
    {
      width, height := GridWidth, GridHeight;
      grid1 := new bool[GridWidth * GridHeight];
      grid2 := new bool[GridWidth * GridHeight];
      flipped, paused := false, false;
    }

    /** The buffer the edits write and the renderer shows. */
    function Current(): (g: array<bool>)
      reads this
      requires Valid()
      ensures g == grid1 || g == grid2
    {
      CurrentGrid(grid1, grid2, flipped)
    }

    /** The other buffer: the scratch target of the next step, and the previous generation the
        renderer compares against. */
    function Other(): (g: array<bool>)
      reads this
      requires Valid()
      ensures (g == grid1 || g == grid2) && g != Current()
    {
      CurrentGrid(grid1, grid2, !flipped)
    }

    /** An unpaused pass of the main loop: step from the current buffer into the other one, then
        flip, so the freshly written buffer becomes current and the old one is kept beside it. */
    method Tick()
      requires Valid()
      modifies this`flipped, Other()
      ensures Valid()
      ensures flipped == !old(flipped)
      ensures Current()[..] == Generation(old(Current()[..]), width, height)
      ensures Other()[..] == old(Current()[..])
    {
      if flipped {
        GameStep(grid2, grid1, width, height);
      } else {
        GameStep(grid1, grid2, width, height);
      }
      flipped := !flipped;
    }

    /** The randomize key: every cell of the current buffer, visited column by column, takes the
        outcome of the next random draw, so slot k receives draw k. */
    method Randomize(draws: seq<bool>)
      requires Valid() && |draws| == width * height
      modifies Current()
      ensures Current()[..] == draws
      ensures Other()[..] == old(Other()[..])
    {
      var grid := CurrentGrid(grid1, grid2, flipped);
      var k := 0;
      var x := 0;
      while x < width
        invariant 0 <= x <= width && k == Index(width, x, 0)
        invariant forall cx, cy | InBounds(width, height, cx, cy) ::
                    GetUnwrap(grid[..], width, height, cx, cy)
                    == if cx < x then GetUnwrap(draws, width, height, cx, cy)
                       else GetUnwrap(old(grid[..]), width, height, cx, cy)
      {
        var y := 0;
        while y < height
          invariant 0 <= y <= height && k == Index(width, x, y)
          invariant forall cx, cy | InBounds(width, height, cx, cy) ::
                      GetUnwrap(grid[..], width, height, cx, cy)
                      == if cx < x || (cx == x && cy < y) then GetUnwrap(draws, width, height, cx, cy)
                         else GetUnwrap(old(grid[..]), width, height, cx, cy)
        {
          var slot := Get(width, height, x, y);
          assert slot.Hit?;
          GetInBuffer(width, height, x, y);
          ghost var was := grid[..];
          grid[slot.index] := draws[k];
          assert grid[..] == SetCell(was, width, height, x, y, draws[k]);
          forall cx, cy ensures GetUnwrap(grid[..], width, height, cx, cy)
                                == if cx == x && cy == y then GetUnwrap(draws, width, height, cx, cy)
                                   else GetUnwrap(was, width, height, cx, cy) {
            ReadAfterSetCell(was, width, height, x, y, draws[k], cx, cy);
          }
          k := k + 1;
          y := y + 1;
        }
        Distrib(x, 1, width);
        x := x + 1;
      }
      ReadsDetermineBuffer(grid[..], draws, width, height);
    }

    /** The paint (alive == true) or erase (alive == false) key: writes the cell under the mouse
        in the current buffer when that cell is on the grid, and ignores the key otherwise. */
    method Edit(input: Input, alive: bool)
      requires Valid()
      modifies Current()
      ensures Current()[..] == SetCell(old(Current()[..]), width, height, MouseCell(input).0, MouseCell(input).1, alive)
      ensures Other()[..] == old(Other()[..])
    {
      var (cellX, cellY) := MouseCell(input);
      if InBounds(width, height, cellX, cellY) {
        var grid := CurrentGrid(grid1, grid2, flipped);
        var slot := Get(width, height, cellX, cellY);
        GetInBuffer(width, height, cellX, cellY);
        grid[slot.index] := alive;
      }
    }

    /** One pass of the main loop, rendering aside: step unless paused, then the randomize,
        pause, paint and erase keys in that order. */
    method Frame(input: Input)
      requires Valid()
      requires input.randomize ==> |input.draws| == width * height
      modifies this`flipped, this`paused, grid1, grid2
      ensures Valid()
      ensures flipped == (old(flipped) != !old(paused))
      ensures paused == (old(paused) != input.togglePause)
      ensures Other()[..] == if old(paused) then old(Other()[..]) else old(Current()[..])
      ensures Current()[..]
           == ApplyEdits(if input.randomize then input.draws
                         else if old(paused) then old(Current()[..])
                         else Generation(old(Current()[..]), width, height),
                         width, height, input)
    {
      if !paused {
        Tick();
      }
      if input.randomize {
        Randomize(input.draws);
      }
      if input.togglePause {
        paused := !paused;
      }
      if input.paint {
        Edit(input, true);
      }
      if input.erase {
        Edit(input, false);
      }
    }
  }
}
