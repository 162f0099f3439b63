# Game of Life engine

This project models the simulation core of a multithreaded Game of Life (`main.c`) and proves properties of the model. It covers these parts:

- **Grid access.** Two flat `bool` buffers hold the grid. Cell (x, y) lives at slot `x * gridWidth + y`. The model has the bounds test `inBounds`, the lookup `get`, and the "off the grid reads as dead" read `getUnwrap`.
- **The transition rule.** Each `worker` counts the eight neighbours of every cell in its rectangular band and applies birth and survival.
- **The band split of `gameStep`.** Twelve column bands are computed with ceiling division. One worker runs per band.
- **The main loop without rendering.**
  - `currentGrid` picks the current buffer.
  - An unpaused pass steps into the other buffer and then flips.
  - The R key randomizes the current buffer. The P key toggles pause.
  - The T key paints the cell under the mouse and the Y key erases it.

Modules:

- `Arith`: three small facts about multiplication that the other proofs call.
- `Grid`: the coordinate layout, `Get`, `GetUnwrap` and the guarded point write `SetCell`.
  - The layout is sound only for square grids. A slot stays inside the buffer when width <= height, and slots are distinct when height <= width. The program is built 500 x 500.
  - So every buffer is required to be `Shaped`: square, with width * height slots.
  - Two lemmas exhibit what goes wrong on non-square grids.
- `Rule`: the neighbour count, the rule, and the whole next generation `Generation`, defined cell by cell.
- `Partition`: the band bounds and the proof that the bands tile the columns.
- `Stepper`: the worker and the step as methods over `array<bool>`, proved against `Generation`.
- `Engine`: the class `Life` with the two buffers, the `flipped` and `paused` flags, and one pass of the main loop.
- `Patterns`: a still life and an oscillator, evolved by `Generation`.

## Model

| member | source | states |
|---|---|---|
| Grid.InBounds | main.c:20-22 | a coordinate is on the grid when 0 <= x < width and 0 <= y < height; Get's contract ties lookup success to it |
| Grid.Get | main.c:20-32 | the lookup succeeds exactly when 0 <= x < width and 0 <= y < height, and then yields slot x * width + y |
| Grid.GetInBuffer | main.c:24-32 | a successful lookup's slot lies in [0, width * height) whenever width <= height |
| Grid.GetInjective | main.c:24-32 | two in-grid cells with the same slot are the same cell whenever height <= width |
| Grid.CellOfIndex | main.c:30 | the slot formula is inverted by (slot / width, slot % width) for every row below the width |
| Grid.TallGridSharesSlots | main.c:30 | on a 2-wide, 3-tall grid the cells (0, 2) and (1, 0) share slot 2 |
| Grid.WideGridOverruns | main.c:30 | on a 3-wide, 2-tall grid cell (2, 1) maps to slot 7, past the 6-slot buffer |
| Grid.GetUnwrap | main.c:34-40 | an off-grid read is false whatever the buffer holds; an in-grid read returns the stored cell |
| Grid.ReadsDetermineBuffer | main.c:34-40 | two square buffers that read alike at every cell are equal |
| Grid.SetCell | main.c:202-218 | the guarded write keeps the buffer's shape; ReadAfterSetCell gives every read after the write |
| Grid.ReadAfterSetCell | main.c:202-218 | after a guarded write, the written cell reads back the new value if it is on the grid; every other cell reads as before |
| Rule.Neighbors | main.c:77-91 | the neighbour count lies in 0..8 |
| Rule.NeighborsCountLiveAround | main.c:77-91 | the count equals the number of live in-grid cells of the 3 x 3 window, the centre excluded |
| Rule.CountLiveIsCardinality | main.c:77-91 | summing the live flags of a repetition-free list of cells gives the size of its set of live cells |
| Rule.NeighborsIsCountLive | main.c:81-91 | the eight additions equal the count of live cells over the ring of neighbours in the worker's order |
| Rule.RingIsNeighbourhood | main.c:81-91 | the ring lists each of the eight cells around (x, y) once and leaves out the cell itself |
| Rule.NextState | main.c:98-116 | the next state is live iff there are 3 neighbours, or the cell is live with 2; the five cases of the rule hold one by one |
| Rule.NextCell | main.c:79-116 | a cell's new value is live exactly when 3 live in-grid cells surround it, or it is live with 2 |
| Rule.Generation | main.c:123-151 | the next generation keeps the buffer's shape; GenerationAt gives each of its cells |
| Rule.GenerationAt | main.c:75-118 | every in-grid cell of the next generation is the rule applied to its old state and count; off-grid reads stay dead |
| Partition.CeilDiv | main.c:130-136 | the result c is the exact ceiling: (c - 1) * n < a <= c * n |
| Partition.Boundary | main.c:130-136 | the first column of band i is ceil(i * width / n); BoundaryEnds, BoundaryMonotone and BandWidth give its properties |
| Partition.MakeBand | main.c:132-139 | band i spans columns [Boundary(i), Boundary(i + 1)) and rows [0, height); BandInGrid puts it on the grid |
| Partition.Bands | main.c:130-140 | one band per worker; BandsTile shows they tile the columns |
| Partition.BoundaryEnds | main.c:130-139 | the first band starts at column 0 and the last band ends at column width |
| Partition.BandWidth | main.c:130-136 | every band is floor(width / n) or floor(width / n) + 1 columns wide |
| Partition.BandWidthsBalanced | main.c:130-136 | two bands of one step differ in width by at most one column |
| Partition.BoundaryMonotone | main.c:130-136 | band boundaries never decrease |
| Partition.BandInGrid | main.c:130-139 | each band's columns lie inside [0, width) |
| Partition.OwnerInRange | main.c:130-136 | every column of the grid has an owner among the workers |
| Partition.OwnerHasColumn | main.c:130-136 | column c belongs to band floor(c * n / width) |
| Partition.BandsTile | main.c:124-139 | the bands are contiguous, span the whole height, start at 0 and end at width; every column has an owner band and no column is in two bands |
| Partition.BuiltInBoundaries | main.c:124-136 | with 500 columns and 12 workers the bounds are 0, 42, 84, 125, ..., 459, 500 |
| Stepper.Fits | main.c:93-97 | a band the worker can finish: empty, or inside the grid; Worker succeeds exactly on such bands |
| Stepper.Worker | main.c:72-121 | succeeds exactly when the band is empty or lies on the grid (the failure is the exit path). On success each band cell holds the rule applied to the old buffer. Cells outside the band are unchanged, and the old buffer is never written |
| Stepper.GameStep | main.c:123-151 | after the bands run one after another, the new buffer is exactly the next generation of the old buffer; the old buffer is not modified |
| Engine.CurrentGrid | main.c:154-156 | the result is grid2 iff flipped, and grid1 iff not flipped |
| Engine.Life.Current | main.c:189 | the buffer currentGrid(grid1, grid2, flipped) picks, one of the two buffers |
| Engine.Life.constructor | main.c:159-163 | two distinct buffers of width * height cells for the 500 x 500 grid, not flipped and not paused |
| Engine.Life.Other | main.c:154-156 | the non-current buffer is one of the two buffers and never the current one |
| Engine.MouseCell | main.c:203-204 | the cell under the mouse is the mouse position itself, since cells are 1 x 1 pixels |
| Engine.ApplyEdits | main.c:202-218 | paint then erase keep the buffer's shape; ApplyEditsAt gives every read afterwards |
| Engine.ApplyEditsAt | main.c:202-218 | the paint and erase keys change at most the cell under the mouse, and only if it is on the grid; erase wins over paint |
| Engine.Life.Tick | main.c:177-184 | the flag flips; the new current buffer holds the next generation of the old current one; the other buffer keeps the old generation |
| Engine.Life.Randomize | main.c:186-196 | every slot k of the current buffer receives draw k; the other buffer is unchanged |
| Engine.Life.Edit | main.c:202-218 | the current buffer receives a guarded write at the mouse cell; the other buffer is unchanged |
| Engine.Life.Frame | main.c:176-218 | flipped changes iff the pass was unpaused; paused toggles with the P key; the current buffer is the edits applied to the randomized, held or stepped buffer; the other buffer is the old current one after a step and unchanged otherwise |
| Patterns.BlockNeighbors | main.c:77-91 | around a 2 x 2 block each cell counts the block cells in its window, less itself |
| Patterns.BlinkerAcrossNeighbors | main.c:77-91 | around a horizontal blinker each cell counts 3 in the middle column and 2 elsewhere, less itself |
| Patterns.BlinkerDownNeighbors | main.c:77-91 | around a vertical blinker each cell counts 3 in the middle row and 2 elsewhere, less itself |
| Patterns.BlockIsStill | main.c:98-116 | a 2 x 2 block is left unchanged by a step |
| Patterns.BlinkerTurnsDown | main.c:98-116 | a horizontal blinker becomes vertical after one step |
| Patterns.BlinkerTurnsAcross | main.c:98-116 | a vertical blinker becomes horizontal after one step |

## Left out

- threads.c and the concurrency of `gameStep`: the workers run one after another in a loop. Bands are disjoint (`BandsTile`), each worker writes only its band and reads only the old buffer (`Worker`'s frame), and slots are distinct, so the order of the workers does not change the result.
- The floating-point band bounds (`double div`, `ceil`) are replaced by exact integer ceiling division. Rounding of the products `i * div` is not modelled.
- `rand()`: the outcomes of the random draws are a parameter (`Input.draws`). The threshold comparison against 0.5 is not modelled.
- Engine.Life.Randomize: the early `return 1` on a failed lookup is not modelled. Every cell it visits is on the grid, so that path cannot be taken.
- Rendering and input polling through raylib are not modelled: `drawGrid`, the window and texture setup, the FPS display, and key and mouse polling. The key states and mouse position of one pass are the fields of `Input`.
- `malloc`/`free` are not modelled. The buffers are two distinct pre-allocated arrays. C leaves their contents uninitialized, and the constructor promises nothing about them.
- Engine.Life.constructor: it allocates the buffers but does not model their uninitialized contents.
- 32-bit `int` arithmetic: integers are unbounded. With the built-in 500 x 500 grid, every slot index and band product stays far below 2^31.
- Stepper.Worker: the message printed before `exit(1)` is not modelled. The exit is the result `ok == false`, with the band possibly half written.
- Grids that are not square: every operation requires `Shaped`, which demands width == height as the program's constants have it. The two counterexample lemmas in `Grid` show why.
