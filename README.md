# Game of Life grid — a Dafny model

This project models the `Grid` class of a small C++ Game of Life program. It
implements Conway's Game of Life on a bounded height×width field with no
wraparound. The grid keeps three generations of cells:

- `current`: the state that can be observed;
- `next`: scratch space written during a step;
- `previous`: a copy of `current` taken just before the last step.

One generation applies the B3/S23 rule to every cell. Live neighbours are
counted over the 3×3 Moore window, and cells off the edge count as dead.
The rule is applied into `next`. Then `current` is copied into `previous`
and `current` is swapped with `next`. The grid is stable when `previous`
equals `current`. This compares the state before a step with the state
after it. The program has a serial and a parallel (OpenMP) version of the
step, with the same loop body.

Three modules:

- `Life` (Life.dfy) holds the pure rule: the neighbour count (`CountLive`
  over the `Window` of offsets, in the order the source's loops visit
  them), the rule `NextState`, one generation `Step`, and n generations
  `Evolved`. It also has `Resized`, which is the effect of
  `std::vector::resize` on a field.
- `PatternTokens` (PatternTokens.dfy) holds the token format of pattern and
  saved-state files as pure functions over `seq<int>`. A file is height,
  width, then height·width cell values in row-major order. `Encode` writes
  1 for alive and 0 for dead. `Decode` reads a cell as alive only when its
  token is exactly 1.
- `GridModel` (GridModel.dfy) holds the class `Grid`. Its fields are
  `height`, `width`, `current`, `next` and `previous`, and the three
  generations are `seq<seq<bool>>` values that the methods reassign. The
  predicate `Valid()` says that all three generations are height×width.
  Every operation that reads or writes cells requires it. A resize that
  breaks it is where the model stops (see "SetSize" under "Left out").
  Each loop of the source is a method with loop invariants, proved against
  the functions of `Life` and `PatternTokens`.

On three points the code does something other than what a reader might
expect, and the model follows the code:

- A loaded cell is alive only when its token `== 1`, not whenever it is
  nonzero (Grid.cpp:45, 116).
- Resizing does not reallocate every row. `std::vector::resize` keeps the
  surviving rows with their old length and contents, and only the appended
  rows are dead rows of the new width (Grid.cpp:38-40, 109-111, 143-145).
  `SetSize` states exactly when the result is a proper height×width grid
  again.
- `to2D` uses C++ truncating division. It is modelled as `CDiv`/`CMod`,
  not as Dafny's Euclidean `/` and `%`, and it requires a positive width.

## Model

| member | source | states |
|---|---|---|
| `Life.LiveNeighbours` | Grid.cpp:218-231 | the live-neighbour count of any cell is between 0 and 8 |
| `Life.LiveNeighboursIsSetSize` | Grid.cpp:218-231 | the count equals the number of offsets (dx, dy) ≠ (0, 0) with \|dx\|, \|dy\| ≤ 1 whose cell is inside the field and alive; cells off the edge never count |
| `Life.RowCounts` | Grid.cpp:249-263 | the counts of the three window rows dx = -1, 0, 1 add up to the neighbour count, so the reduction's partial sums give the same total |
| `Life.Step` | Grid.cpp:234-243 | the next generation has the same shape, and cell (i, j) is alive iff it has exactly 3 live neighbours, or it is alive and has exactly 2 |
| `Life.Evolved` | Grid.cpp:233-246 | any number of generations keeps the height×width shape |
| `Life.DeadFieldIsFixed` | Grid.cpp:233-246 | a field with no live cell is its own next generation |
| `Life.LoneCellDies` | Grid.cpp:234-243 | a single live cell with nothing else alive dies and nothing is born, so the next generation is all dead |
| `Life.FixedPointPersists` | Grid.cpp:84-96 | once a generation equals its successor, every later generation equals it |
| `Life.EvolvedAdd` | Grid.cpp:84-96 | a + b generations are a generations followed by b more |
| `Life.RunStopsAtFixedPoint` | Grid.cpp:84-96 | when generation s is its own successor, every generation n ≥ s equals it, so a run loop that stops at s ends where running on to n would |
| `Life.Resized` | Grid.cpp:143-145 | resizing to h rows keeps the first rows unchanged and appends dead rows of width w |
| `PatternTokens.EncodeLayout` | Grid.cpp:129-135 | saved tokens are h, w and then h·w tokens, each 0 or 1, with cell (i, j) at position 2 + i·w + j |
| `PatternTokens.Decode` | Grid.cpp:108-118 | decoding fails exactly when there are fewer than two tokens, a dimension is negative, or fewer than h·w cell tokens follow; otherwise the pattern has the dimensions of its first two tokens and an h×w field, and the tokens hold all h·w cells |
| `PatternTokens.DecodedCell` | Grid.cpp:112-118 | decoded cell (i, j) is alive iff token 2 + i·w + j equals 1; any other value reads as dead |
| `PatternTokens.DecodeEncode` | Grid.cpp:108-135 | decoding the tokens a save writes gives back the height, the width and every cell |
| `PatternTokens.EncodeDecode` | Grid.cpp:108-135 | a token sequence that has only 0/1 cell tokens and nothing after them is exactly what saving its decoded pattern writes |
| `GridModel.FlatIndex` | Grid.cpp:25-27 | with truncating division by w > 0, p = row·w + column; for p ≥ 0 this is (p / w, p % w); for p < 0 the quotient is ≤ 0 and the remainder lies in (-w, 0], as truncation gives; the cell is inside an h×w grid iff 0 ≤ p < h·w, and negative p never names a cell |
| `GridModel.Grid.Empty` | Grid.cpp:15 | the default grid is 0×0 with three empty generations |
| `GridModel.Grid.constructor` | Grid.cpp:17-23 | an h×w grid has all three generations h×w and all dead |
| `GridModel.Grid.SetSize` | Grid.cpp:140-146 | sets height and width and resizes each generation as `std::vector::resize` does; a proper grid stays proper iff the new height is 0, it was empty, or the width is unchanged |
| `GridModel.Grid.To2D` | Grid.cpp:25-27 | p = row·width + column, with (p / width, p % width) for p ≥ 0 and, as C++ truncation gives, row ≤ 0 and -width < column ≤ 0 for p < 0; the index names a cell iff 0 ≤ p < height·width |
| `GridModel.Grid.GetCell` | Grid.cpp:164-170 | an in-bounds cell reads its current state; an out-of-bounds coordinate reads as dead |
| `GridModel.Grid.GetCellAt` | Grid.cpp:172-175 | index p reads cell (p / width, p % width) when 0 ≤ p < height·width, and dead otherwise |
| `GridModel.Grid.SetCell` | Grid.cpp:151-157 | an in-bounds write sets exactly that cell, so `GetCell` then returns the new state; every other cell, `next`, `previous` and the dimensions are unchanged; an out-of-bounds write changes nothing |
| `GridModel.Grid.SetCellAt` | Grid.cpp:159-162 | index p writes exactly cell (p / width, p % width) when 0 ≤ p < height·width, and changes nothing otherwise |
| `GridModel.Grid.Place` | Grid.cpp:181-183 | cell (i, j) is alive afterwards iff it was alive before or (i - x, j - y) is one of the offsets; off-grid offsets are skipped; nothing else changes |
| `GridModel.Grid.AddGlider` | Grid.cpp:177-184 | exactly the in-grid cells at the glider's five offsets from (x, y) become alive; all other cells are unchanged |
| `GridModel.Grid.AddToad` | Grid.cpp:186-193 | exactly the in-grid cells at the toad's six offsets become alive; all other cells are unchanged |
| `GridModel.Grid.AddBeacon` | Grid.cpp:195-202 | exactly the in-grid cells at the beacon's eight offsets become alive; all other cells are unchanged |
| `GridModel.Grid.AddRPentomino` | Grid.cpp:204-211 | exactly the in-grid cells at the R-pentomino's five offsets become alive; all other cells are unchanged |
| `GridModel.Grid.CountLiveNeighborsSerial` | Grid.cpp:218-231 | the nested offset loops return the live-neighbour count of (x, y) |
| `GridModel.Grid.CountWindowRow` | Grid.cpp:252-261 | one iteration dx of the reduction loop counts the live cells in row dx of the window |
| `GridModel.Grid.CountLiveNeighbors` | Grid.cpp:249-263 | the reduction of the per-row partial counts returns the same live-neighbour count as the serial loops |
| `GridModel.Grid.NextGenerationSerial` | Grid.cpp:234-243 | after the cell loops, `next` is the next generation of `current`; nothing else changes |
| `GridModel.Grid.EvolveSerial` | Grid.cpp:233-246 | `current` becomes the next generation, `previous` is the generation from before the step, `next` holds that old generation, and the dimensions are kept; the grid is then stable iff the old generation was its own successor; an all-dead grid stays all dead and is then stable |
| `GridModel.Grid.NextGeneration` | Grid.cpp:266-276 | the parallel cell pass leaves in `next` the same next generation as the serial pass |
| `GridModel.Grid.Evolve` | Grid.cpp:265-279 | the parallel step ends in the same state as `EvolveSerial`: the same `current`, `previous` and `next` |
| `GridModel.Grid.IsStable` | Grid.cpp:281-283 | stable iff `previous` and `current` agree cell for cell |
| `GridModel.Grid.RunSerial` | Grid.cpp:81-100 | takes at most `generations` steps (none if it is not positive); `current` is the generation that many steps on; no earlier step left the grid unchanged; stopping before the limit happens only at a stable state, which is a fixed point of the rule, so for a positive limit `current` equals the generation `generations` steps on; with no step `previous` and `next` are unchanged, and after a step `next` equals `previous` |
| `GridModel.Grid.Run` | Grid.cpp:60-79 | the same as `RunSerial`, using the parallel step |
| `GridModel.Grid.Save` | Grid.cpp:129-135 | the tokens written are h, w and the 0/1 cells of `current`, row by row |
| `GridModel.Grid.ReadCells` | Grid.cpp:112-118 | the reading loops fill `current` with the decoded cells, a token of 1 meaning alive |
| `GridModel.Grid.Load` | Grid.cpp:108-120 | the dimensions become the first two tokens, `current` becomes the decoded field, and `next` and `previous` are resized |
| `GridModel.Grid.InitializePattern` | Grid.cpp:37-47 | reads the tokens exactly as `Load` does |
| `GridModel.SaveThenLoad` | Grid.cpp:102-138 | saving a grid and loading the tokens into a fresh empty grid reproduces its height, its width and its current generation |

## Left out

- File handling is not modelled. This covers opening and closing files, the
  error-stream messages, and the `false` returned when a file cannot be
  opened (Grid.cpp:30-36, 103-107, 124-128). A file is modelled as the
  sequence of its integer tokens.
- Load: requires that the tokens decode, that is, that there are at least
  2 + h·w tokens and h, w ≥ 0. A truncated or malformed stream gives stream
  failures or uninitialised reads in the source, and that behaviour is not
  modelled.
- Load: also requires the grid to be empty, or to already have the pattern's
  width, or the pattern to have height 0. Otherwise the surviving rows keep
  their old length. A shorter row is then written out of range (undefined in
  the source), and a longer row keeps extra cells. `SetSize` models the
  resize itself in full.
- SetSize: when it leaves rows of the old width, no further operation is
  modelled, because every other member requires `Valid()`. This happens on
  a non-empty grid given a new width and a nonzero height. In the source a
  shrunk width stays defined: the rows keep hidden extra cells, and
  `is_stable` (Grid.cpp:281-283) compares them too, so a grid whose visible
  cells are a fixed point can still fail to be stable. A grown width leads
  to out-of-range accesses, which are undefined.
- InitializePattern: has the same two preconditions as Load, for the same
  reasons.
- RunSerial: returns the number of generations evolved, not the elapsed
  wall-clock milliseconds. Clocks, `sleep_for` and the "stable at
  generation" message are left out.
- Run: the same as RunSerial.
- Rendering is not modelled: `print`, `clearScreen`, the `printEnabled`
  flag and `setPrintEnabled` (Grid.cpp:51-58, 213-215, 285-292). They only
  produce terminal output.
- The constructor and SetSize require non-negative dimensions. A negative
  size makes `std::vector` throw in the source, and the exception path is
  not modelled.
- `int` is unbounded in the model, so 32-bit overflow is not modelled.
  The source never forms height·width. The preset shapes add offsets of up
  to 3 to a caller's anchor (Grid.cpp:182, 191, 200, 209); the model
  assumes anchors small enough that x + 3 and y + 3 do not overflow, where
  the source's behaviour would be undefined.
- The OpenMP pragmas (Grid.cpp:251, 266) are not modelled. The reduction
  is modelled as per-row partial sums added at the end.
- NextGeneration: the cells of one row of `next` are bits of a
  `std::vector<bool>`, packed into shared words. The collapsed parallel
  loop (Grid.cpp:266-276) can give neighbouring cells of one row to
  different threads, whose writes to the same word race and can lose an
  update. The model takes the race-free result, the cells written one
  after another.
- Evolve: inherits that race from NextGeneration; its contract, and its
  equality with `EvolveSerial`, describe the race-free result only.
- SetCell: the diagnostic "Error: Coordinates out of bounds." that the
  source writes to the error stream on an out-of-bounds write
  (Grid.cpp:155) is not modelled. This includes each preset offset that
  falls off the grid. An out-of-bounds write only leaves the state
  unchanged.
- GetCell: the same diagnostic on an out-of-bounds read (Grid.cpp:168) is
  not modelled. Such a read only returns false.
- `getHeight`/`getWidth` are plain reads of the `height` and `width`
  fields.
- `addMethuselah` is declared in Grid.h:48 but has no definition, so there
  is nothing to model.
- CLI.cpp is not part of this model. It is the interactive driver: it reads
  console input, runs 20 generations, reports a floating-point speedup
  ratio and saves the result.
- The glider period (after 4 generations a glider is its own shape moved by
  (1, 1)) is a fact about particular patterns, not an operation of the
  grid. It is not proved.
