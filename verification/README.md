# Game of Life engine, modelled in Dafny

This project models the simulation engine of a single-file C implementation of
Conway's Game of Life (`main.c`). The model covers:

- the 64 x 32 `screen` buffer of cell bytes and its two addressing schemes
  (flat index and (x, y) coordinate);
- the bounded Moore-neighbourhood count `neighbours_count`;
- the generation step `next_generation`, with its `population` and
  `generation` counters;
- the glyph-classification loop of `load_first_generation_from_file`.

Modules:

- `Grid` (grid.dfy) holds the dimensions, the cell bytes and the address conversions. It also holds the 64-bit unsigned arithmetic of the `size_t` counters (`Wrap`) and the live-byte count of a buffer.
- `Neighbours` (neighbours.dfy) holds the neighbour list that the nested `dy`/`dx` loops build, in visiting order. It also holds the count of the live cells in that list and the corner cells, which have exactly three neighbours on the grid.
- `NeighbourSet` (neighbour_set.dfy) holds an independent set-based definition of the same count: the live cells reached by the eight offsets.
- `Rule` (rule.dfy) holds the transition rule on one cell and on the whole buffer, iterated generations, locality, stray bytes, the empty grid and the counter range.
- `Loader` (loader.dfy) holds the loader's classification of file bytes into cell bytes, on values: what the loop writes, how many live cells, and the bounded variant.
- `Life` (life.dfy) holds the class `Simulation`, whose fields `screen`, `population` and `generation` are the C globals. Its methods update them in place, mirroring the C loops. Each method is proved against the functions of `Neighbours`, `Rule` and `Loader`.

Cells are bytes, not a two-valued enumeration. Conway's rule knows two cell states, but the code stores bytes:

- `screen` starts zero-filled.
- `tmp` starts as `{0}`.
- The step's `switch` has no `default` case.

As a result, a byte that is neither `'0'` nor `' '` becomes 0 in the next generation and is never born. The model follows the code here (`Rule.StrayByteCleared`, `Rule.StrayNeverBorn`).

`size_t` is taken to be 64 bits wide. `population` and `generation` are kept modulo 2^64 (`Grid.Wrap`), so a claim that the counter never underflows is a real statement about the model.

## Model

| member | source | states |
|---|---|---|
| Grid.Wrap | main.c:20-21 | the value a `size_t` holds is below 2^64 and equals the assigned value when that is already in range |
| Grid.WrapMod | main.c:20-21 | wrapping is reduction modulo 2^64 |
| Grid.WrapAdd | main.c:140-153 | wrapping commutes with adding a further amount, so a counter moved by +1/-1 step by step holds the wrapped running total |
| Grid.Index2Vec | main.c:67-75 | column in [0, 64), row non-negative, `y * 64 + x` gives the index back, and the coordinate is on the grid exactly when the index is below `SCREEN_SIZE` |
| Grid.IsValid | main.c:82-90 | a coordinate is on the grid exactly when its column is in [0, 64) and its row-major offset `y * 64 + x` falls inside the buffer |
| Grid.Vec2Index | main.c:77-80 | for an on-grid coordinate the index is below `SCREEN_SIZE` and converts back to the same coordinate |
| Grid.IndexRoundTrip | main.c:67-80 | `vec2index(index2vec(i)) == i` for every index on the grid, and `index2vec(i)` is valid |
| Grid.CoordinateRoundTrip | main.c:67-80 | `index2vec(vec2index(c)) == c` and the index is in range for every valid coordinate |
| Grid.ValidIffRoundTrip | main.c:82-90 | `is_valid(c)` holds exactly when `vec2index(c)` lies in the buffer and converts back to `c` |
| Grid.IsAlive | main.c:92-98 | a cell is alive exactly when it adds one to the running live count of the buffer |
| Grid.AliveCountZero | main.c:92-98 | a buffer's live count is zero exactly when no byte is `ALIVE_CELL`; every other byte, stray ones included, reads as dead |
| Neighbours.Offset | main.c:108-110 | the k-th offset visited by the nested loops has components in {-1, 0, 1} and sits at loop position (dy + 1) * 3 + (dx + 1) |
| Neighbours.OffsetAt | main.c:108-109 | every offset (dx, dy) in {-1, 0, 1}^2 is visited, at position (dy + 1) * 3 + (dx + 1) |
| Neighbours.CandidatesUpTo | main.c:108-117 | after k loop positions at most k (k - 1 once past the centre) cells are collected, all of them on the grid |
| Neighbours.CandidatesUpToStep | main.c:110-115 | one loop position appends its target exactly when it is not the centre and `is_valid` holds; the array of eight never overflows |
| Neighbours.Candidates | main.c:104-117 | at most eight cells are collected, all of them on the grid |
| Neighbours.CandidatesUpToMembers | main.c:108-117 | a cell is among the first k collected exactly when it is on the grid, adjacent, and its offset is visited before position k |
| Neighbours.CandidatesMembers | main.c:108-117 | the collected cells are exactly the adjacent on-grid cells; off-grid offsets are skipped, with no wrap-around |
| Neighbours.CandidatesUpToDistinct | main.c:108-117 | no cell is collected twice |
| Neighbours.CountAlive | main.c:119-125 | the live count over a list is at most its length |
| NeighbourSet.CountAliveSet | main.c:119-125 | over on-grid cells without repeats, the counting loop yields the number of distinct live cells in the list |
| Neighbours.NeighbourCount | main.c:100-128 | `neighbours_count` is in [0, 8] |
| NeighbourSet.NeighbourCountIsLiveNeighbours | main.c:100-128 | `neighbours_count` equals the number of live on-grid cells reached by the offsets (dx, dy) other than (0, 0) |
| Neighbours.CountAliveLocal | main.c:119-125 | the count over a list depends only on the bytes at the listed cells |
| Neighbours.NeighbourCountLocal | main.c:100-128 | the count depends only on the adjacent on-grid cells, not on the rest of the grid or the opposite edge |
| Neighbours.CountAliveNone | main.c:119-125 | with no live byte on the grid every count is zero |
| Neighbours.CornerFirstPositions | main.c:108-117 | at (0, 0) the first five loop positions collect nothing |
| Neighbours.CornerMiddlePositions | main.c:108-117 | at (0, 0) the first seven loop positions collect only (1, 0) |
| Neighbours.CornerAllPositions | main.c:108-117 | at (0, 0) the loops collect exactly (1, 0), (0, 1), (1, 1) |
| Neighbours.CornerCount | main.c:100-128 | the corner (0, 0) has exactly three candidates and a count of at most 3 |
| Neighbours.CornerNeighboursAdjacent | main.c:82-90 | the three cells next to any corner (along the row, along the column, diagonally inwards) are on the grid and adjacent to it |
| Neighbours.CornerAdjacentListed | main.c:82-90 | every adjacent on-grid cell of a corner is one of those three |
| Neighbours.CornerNeighboursDistinct | main.c:82-90 | the three cells next to a corner are distinct |
| Neighbours.CornerCandidates | main.c:104-117 | at each of the four corners the loops collect exactly three cells |
| Neighbours.CornerNeighbourCount | main.c:100-128 | at each of the four corners `neighbours_count` is at most 3; the corners do not wrap to the opposite edges |
| Rule.NextCell | main.c:138-155 | the rule: live with 2 or 3 neighbours stays live, otherwise becomes `' '`; dead with exactly 3 becomes live, otherwise stays `' '`; any other byte gives 0; each outcome stated as an if-and-only-if |
| Rule.NextAt | main.c:135-155 | one turn of the step loop: a live cell survives with 2 or 3 live neighbours, a dead cell is born with exactly 3, every other outcome is `' '`, and a stray byte gives 0 |
| Rule.NextPrefix | main.c:134-156 | the first n bytes of `tmp` after n turns of the loop are the next states of cells 0..n-1, each from the pre-step buffer |
| Rule.NextScreen | main.c:132-158 | every byte of the next buffer is the rule applied to the pre-step buffer |
| Rule.NextScreenLocal | main.c:132-158 | a next state depends only on the cell and its adjacent on-grid cells in the pre-step buffer, so the traversal order does not matter |
| Rule.StrayByteCleared | main.c:132-155 | a byte that is neither live nor dead becomes 0 |
| Rule.Generations | main.c:167-170 | k steps of the main loop keep the buffer at `SCREEN_SIZE` bytes |
| Rule.StrayNeverBorn | main.c:132-155 | a stray byte is 0, hence not live, in every later generation |
| Rule.NoLifeStaysLifeless | main.c:147-154 | with no live cell, no cell is born, dead cells stay dead, and the next buffer has no live cell |
| Rule.DeadGridFixed | main.c:147-154 | an all-dead grid is a fixed point of the step |
| Rule.EmptyGridStable | main.c:130-160 | an all-dead grid stays unchanged with zero live cells for any number of generations |
| Rule.LoneCellDies | main.c:139-146 | a single live cell on an otherwise lifeless grid has no live neighbour, even at a corner, and dies |
| Rule.RunningPopulationInRange | main.c:140-153 | starting from a consistent counter, the running count after any prefix of the step loop stays in [0, 2^64): no underflow or overflow |
| Loader.GlyphCells | main.c:39-49 | one cell byte per '.' or '#', each `' '` or `'0'`, never more cells than input bytes |
| Loader.HashCount | main.c:44-46 | the number of '#' bytes is at most the input length |
| Loader.GlyphCellsAppend | main.c:39-49 | bytes are classified one at a time, in order: classification distributes over concatenation |
| Loader.GlyphCellsSingle | main.c:40-48 | '.' gives `' '`, '#' gives `'0'`, any other byte (newlines included) gives nothing |
| Loader.GlyphCellsAlive | main.c:44-46 | the live cells written are exactly the '#' bytes read |
| Loader.AllDotsCells | main.c:41-43 | n '.' bytes give n dead cells |
| Loader.LoaderOverflowWitness | main.c:26-42 | a read buffer of `TMP_SIZE` '.' bytes yields `SCREEN_SIZE + 32` cells, more than `screen` holds |
| Loader.Placed | main.c:38-49 | the bounded loader's cells are a prefix of the classified cells, at most `SCREEN_SIZE` long, and all of them when they fit |
| Loader.PlacedFits | main.c:38-49 | when the glyphs fit, the bounded loader places what the unbounded one writes, with one live cell per '#' |
| Loader.PlaceStep | main.c:40-48 | while the grid has room, '.' appends `' '` and '#' appends `'0'`; otherwise nothing changes |
| Loader.PlacedStep | main.c:39-49 | reading one more byte takes one `PlaceStep` |
| Life.Simulation.constructor | main.c:18-21 | initial state: zero-filled screen, population 0, generation 1, and the counter agrees with the (zero) live cells |
| Life.Simulation.CollectNeighbours | main.c:104-117 | the nested loops fill the local array of eight with exactly `Candidates(cell)` in visiting order |
| Life.Simulation.NeighboursCount | main.c:100-128 | returns `NeighbourCount` of the current screen, a value in [0, 8] |
| Life.Simulation.ApplyRule | main.c:135-155 | writes the rule's next state of cell i into `tmp[i]`, touching no other slot, and moves the wrapped population by the change in live cells |
| Life.Simulation.ComputeNext | main.c:132-156 | fills a fresh zeroed buffer with `NextScreen` of the unchanged screen; population moves by the difference of live counts, modulo 2^64 |
| Life.Simulation.NextGeneration | main.c:130-160 | the screen becomes `NextScreen` of the old screen; generation advances by exactly 1 (mod 2^64); population moves by births minus deaths, so a population that agreed with the live cells before still agrees after |
| Life.Simulation.WriteGlyph | main.c:40-48 | one turn of the glyph `switch` writes the byte's cell at the cursor, advances it, counts a '#', and changes nothing else |
| Life.Simulation.LoadFirstGeneration | main.c:38-49 | with at most `SCREEN_SIZE` glyphs: the screen front holds `GlyphCells` in order from position 0, the rest is untouched, and population grows by the number of '#' bytes |
| Life.Simulation.PlaceGlyph | main.c:40-48 | one turn of the bounded loop: as `WriteGlyph` while the cursor is on the grid, nothing once it is full |
| Life.Simulation.LoadFirstGenerationBounded | main.c:38-49 | for every read buffer, the screen front holds `Placed(tmp)`, the rest is untouched, and population grows by its live cells |

## Left out

- File I/O in `load_first_generation_from_file` (main.c:29-36): `fopen`, `fread`, `fclose` and the `exit` on a missing file. The loop is modelled over a given buffer of `TMP_SIZE` bytes. A short `fread` leaves part of `tmp` uninitialised; the model covers it by taking that part as arbitrary bytes.
- `render_screen` (main.c:52-65): output to stdout with ANSI escape codes.
- `main` (main.c:162-174): the endless loop, the `usleep`/`FPS` pacing and the Windows `sleep` macro. `Rule.Generations` stands for k turns of the loop without rendering.
- Grid.Add: the assumed componentwise `vec2i_add`; smath.h is not part of this model, so `Vec2i` is taken to be a pair of `int` fields and the addition has no behaviour of its own to prove.
- Grid.Index2Vec: the `size_t` quotient `index / SCREEN_WIDTH` is stored in an `int` field without narrowing, so for indices of 2^37 and above the model keeps a row the C conversion would not. This is harmless, since the source converts only indices below `SCREEN_SIZE` (main.c:104, called from the loop at main.c:134).
- Grid.Vec2Index: the `int` product `cell.y * SCREEN_WIDTH + cell.x` is computed without 32-bit overflow before the `size_t` conversion. This is harmless, since the source only converts coordinates on the grid.
- Grid.IsAlive: requires the index to lie inside the buffer. The source only calls `is_alive` with indices of on-grid cells, so it never reads outside `screen`.
- Oscillators and still lifes other than the empty grid (a blinker, a block) are not stated as separate lemmas: they are particular configurations of the general rule in `Rule.NextCell` and `Rule.NextScreenLocal`, left out as examples.

## Findings

| source | as written | input that shows it | evidently intended | confidence | as-written member | corrected member |
|---|---|---|---|---|---|---|
| main.c:38-49 | the cursor `cur` is never compared with `SCREEN_SIZE`, while `tmp` holds `SCREEN_SIZE + 32` bytes, so `screen[cur++]` can write up to 32 bytes past the end of `screen` | a first-generation file of `TMP_SIZE` (2080) '.' bytes: 2080 glyphs for 2048 cells | stop placing glyphs once the screen is full | not executed | Loader.LoaderOverflowWitness | Life.Simulation.LoadFirstGenerationBounded |

The method that models the loop as written, `Life.Simulation.LoadFirstGeneration`, has to require at most `SCREEN_SIZE` glyphs. `Loader.LoaderOverflowWitness` exhibits an input that breaks this requirement. `Life.Simulation.LoadFirstGenerationBounded` accepts every buffer: it places `Loader.Placed(tmp)`, and on inputs that fit it agrees with the loop as written (`Loader.PlacedFits`).
