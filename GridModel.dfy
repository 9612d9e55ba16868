/** The grid object: three generations of cells (current, next, previous)
    over a bounded height×width field, bounds-checked cell access, preset
    shapes, the serial and the parallel evolution step, the stability test,
    the run loops and the token-level save and load. */
module GridModel {
  import opened Life
  import opened PatternTokens

  /** C++ `/` on int with a positive divisor: the quotient truncated
      toward zero. */
  function CDiv(a: int, b: int): int
    requires b > 0
  {
    if a >= 0 then a / b else -((-a) / b)
  }

  /** C++ `%` on int with a positive divisor: the remainder takes the sign
      of the dividend. */
  function CMod(a: int, b: int): int
    requires b > 0
  {
    a - b * CDiv(a, b)
  }

  /** With truncating division, a flat index names a cell of an h×w grid
      exactly when it lies in [0, h·w); for such an index the quotient and
      remainder are Dafny's (and C++'s) ordinary ones. A negative index
      truncates toward zero: the quotient is at most 0 and the remainder
      lies in (-w, 0], where Euclidean division would give a remainder in
      [0, w). */
  lemma FlatIndex(h: int, w: int, p: int)
    requires h >= 0 && w > 0
    ensures p == CDiv(p, w) * w + CMod(p, w)
    ensures 0 <= p ==> CDiv(p, w) == p / w && CMod(p, w) == p % w
    ensures InBounds(h, w, CDiv(p, w), CMod(p, w)) <==> 0 <= p < h * w
    ensures p < 0 ==> CDiv(p, w) <= 0 && -w < CMod(p, w) <= 0
  {
    if p < 0 {
      NegativeIndexOutside(h, w, p);
    } else {
      NonNegativeIndex(h, w, p);
    }
  }

  lemma NegativeIndexOutside(h: int, w: int, p: int)
    requires w > 0 && p < 0
    ensures !InBounds(h, w, CDiv(p, w), CMod(p, w))
    ensures CDiv(p, w) <= 0 && -w < CMod(p, w) <= 0
  {
    var q, r := (-p) / w, (-p) % w;
    assert CDiv(p, w) == -q;
    assert CMod(p, w) == -r by {
      assert -p == w * q + r;
    }
    if q == 0 {
      assert r == -p;
    }
  }

  lemma NonNegativeIndex(h: int, w: int, p: int)
    requires h >= 0 && w > 0 && p >= 0
    ensures CDiv(p, w) == p / w && CMod(p, w) == p % w
    ensures InBounds(h, w, p / w, p % w) <==> p < h * w
  {
    assert p == w * (p / w) + p % w;
    if p < h * w {
      RowMajorSplit(h, w, p);
    } else if p / w < h {
      RowMajorBound(h, w, p / w, p % w);
    }
  }

  /** Offsets, relative to the anchor (x, y), of the preset shapes. */
  const GliderOffsets: seq<(int, int)> := [(0, 1), (1, 2), (2, 0), (2, 1), (2, 2)]
  const ToadOffsets: seq<(int, int)> := [(0, 1), (0, 2), (0, 3), (1, 0), (1, 1), (1, 2)]
  const BeaconOffsets: seq<(int, int)> := [(0, 0), (0, 1), (1, 0), (1, 1), (2, 2), (2, 3), (3, 2), (3, 3)]
  const RPentominoOffsets: seq<(int, int)> := [(0, 1), (0, 2), (1, 0), (1, 1), (2, 1)]

  class Grid {
    var height: int
    var width: int
    var current: Field
    var next: Field
    var previous: Field

    /** The three generations share the grid's height×width shape. */
    ghost predicate Valid()
      reads this
    {
      height >= 0 && width >= 0
      && IsShape(current, height, width)
      && IsShape(next, height, width)
      && IsShape(previous, height, width)
    }

    /** An empty 0×0 grid. */
    constructor Empty()
      ensures Valid() && height == 0 && width == 0
      ensures current == [] && next == [] && previous == []
    {
      height, width := 0, 0;
      current, next, previous := [], [], [];
    }

    /** An h×w grid with every cell of every generation dead. */
    constructor (h: int, w: int)
      requires h >= 0 && w >= 0
      ensures Valid() && height == h && width == w
      ensures current == Blank(h, w) && next == Blank(h, w) && previous == Blank(h, w)
      ensures AllDead(current)
    {
      height, width := h, w;
      current, next, previous := Blank(h, w), Blank(h, w), Blank(h, w);
    }

    /** Sets the dimensions and resizes the three generations the way
        std::vector::resize does: rows that survive keep their old length
        and contents, added rows are dead rows of the new width. The grid
        keeps its shape invariant exactly when no old row survives or the
        width did not change. */
    method SetSize(h: int, w: int)
      requires h >= 0 && w >= 0
      modifies this
      ensures height == h && width == w
      ensures current == Resized(old(current), h, w)
      ensures next == Resized(old(next), h, w)
      ensures previous == Resized(old(previous), h, w)
      ensures old(Valid()) ==> (Valid() <==> h == 0 || old(height) == 0 || old(width) == w)
    {
      height, width := h, w;
      current := Resized(current, h, w);
      next := Resized(next, h, w);
      previous := Resized(previous, h, w);
      if old(Valid()) && !(h == 0 || old(height) == 0 || old(width) == w) {
        assert |current[0]| == old(width);
      }
    }

    /** The flat index `p` as (row, column): C++ truncating division by the
        width, which must be positive. */
    function To2D(p: int): (rc: (int, int))
      reads this
      requires width > 0
      ensures p == rc.0 * width + rc.1
      ensures 0 <= p ==> rc == (p / width, p % width)
      ensures p < 0 ==> rc.0 <= 0 && -width < rc.1 <= 0
      ensures height >= 0 ==> (InBounds(height, width, rc.0, rc.1) <==> 0 <= p < height * width)
    {
      if height >= 0 then FlatIndex(height, width, p); (CDiv(p, width), CMod(p, width))
      else FlatIndex(0, width, p); (CDiv(p, width), CMod(p, width))
    }

    /** The state of cell (x, y); a coordinate outside the grid reads as dead. */
    function GetCell(x: int, y: int): (alive: bool)
      reads this
      requires Valid()
      ensures alive ==> InBounds(height, width, x, y)
      ensures InBounds(height, width, x, y) ==> alive == current[x][y]
    {
      if 0 <= x < height && 0 <= y < width then current[x][y] else false
    }

    /** The state of the cell at flat index `p`: cell (p / width, p % width)
        when 0 <= p < height·width, and dead for any other index. */
    function GetCellAt(p: int): (alive: bool)
      reads this
      requires Valid() && width > 0
      ensures 0 <= p < height * width ==> InBounds(height, width, p / width, p % width)
      ensures alive <==> 0 <= p < height * width && GetCell(p / width, p % width)
    {
      var rc := To2D(p);
      GetCell(rc.0, rc.1)
    }

    /** Sets cell (x, y) of the current generation; a coordinate outside the
        grid changes nothing. */
    method SetCell(x: int, y: int, state: bool)
      requires Valid()
      modifies this
      ensures Valid()
      ensures height == old(height) && width == old(width)
      ensures next == old(next) && previous == old(previous)
      ensures current == if InBounds(height, width, x, y)
                         then old(current)[x := old(current)[x][y := state]]
                         else old(current)
      ensures InBounds(height, width, x, y) ==> GetCell(x, y) == state
      ensures forall i, j :: (i, j) != (x, y) ==> GetCell(i, j) == old(GetCell(i, j))
    {
      if x >= 0 && x < height && y >= 0 && y < width {
        current := current[x := current[x][y := state]];
      }
    }

    /** Sets the cell at flat index `p`: cell (p / width, p % width) when
        0 <= p < height·width; any other index changes nothing. */
    method SetCellAt(p: int, state: bool)
      requires Valid() && width > 0
      modifies this
      ensures Valid()
      ensures height == old(height) && width == old(width)
      ensures next == old(next) && previous == old(previous)
      ensures 0 <= p < height * width ==>
        InBounds(height, width, p / width, p % width)
        && current == old(current)[p / width := old(current)[p / width][p % width := state]]
      ensures !(0 <= p < height * width) ==> current == old(current)
    {
      var rc := To2D(p);
      SetCell(rc.0, rc.1, state);
    }

    /** Makes alive every in-grid cell (x + dx, y + dy) for (dx, dy) in
        `shape`, one bounds-checked SetCell at a time. */
    method Place(shape: seq<(int, int)>, x: int, y: int)
      requires Valid()
      modifies this
      ensures Valid()
      ensures height == old(height) && width == old(width)
      ensures next == old(next) && previous == old(previous)
      ensures forall i, j :: InBounds(height, width, i, j) ==>
        current[i][j] == (old(current)[i][j] || (i - x, j - y) in shape)
    {
      for k := 0 to |shape|
        invariant Valid()
        invariant height == old(height) && width == old(width)
        invariant next == old(next) && previous == old(previous)
        invariant forall i, j :: InBounds(height, width, i, j) ==>
          current[i][j] == (old(current)[i][j] || (i - x, j - y) in shape[..k])
      {
        assert shape[..k + 1] == shape[..k] + [shape[k]];
        SetCell(x + shape[k].0, y + shape[k].1, true);
      }
      assert shape[..|shape|] == shape;
    }

    method AddGlider(x: int, y: int)
      requires Valid()
      modifies this
      ensures Valid()
      ensures height == old(height) && width == old(width)
      ensures next == old(next) && previous == old(previous)
      ensures forall i, j :: InBounds(height, width, i, j) ==>
        current[i][j] == (old(current)[i][j] || (i - x, j - y) in GliderOffsets)
    {
      Place(GliderOffsets, x, y);
    }

    method AddToad(x: int, y: int)
      requires Valid()
      modifies this
      ensures Valid()
      ensures height == old(height) && width == old(width)
      ensures next == old(next) && previous == old(previous)
      ensures forall i, j :: InBounds(height, width, i, j) ==>
        current[i][j] == (old(current)[i][j] || (i - x, j - y) in ToadOffsets)
    {
      Place(ToadOffsets, x, y);
    }

    method AddBeacon(x: int, y: int)
      requires Valid()
      modifies this
      ensures Valid()
      ensures height == old(height) && width == old(width)
      ensures next == old(next) && previous == old(previous)
      ensures forall i, j :: InBounds(height, width, i, j) ==>
        current[i][j] == (old(current)[i][j] || (i - x, j - y) in BeaconOffsets)
    {
      Place(BeaconOffsets, x, y);
    }

    method AddRPentomino(x: int, y: int)
      requires Valid()
      modifies this
      ensures Valid()
      ensures height == old(height) && width == old(width)
      ensures next == old(next) && previous == old(previous)
      ensures forall i, j :: InBounds(height, width, i, j) ==>
        current[i][j] == (old(current)[i][j] || (i - x, j - y) in RPentominoOffsets)
    {
      Place(RPentominoOffsets, x, y);
    }

    /** Counts the live neighbours of (x, y) in the current generation, one
        offset of the 3×3 window at a time. */
    method CountLiveNeighborsSerial(x: int, y: int) returns (liveCount: int)
      requires Valid()
      ensures liveCount == LiveNeighbours(current, height, width, x, y)
    {
      ghost var f := current;
      liveCount := 0;
      for dx := -1 to 2
        invariant liveCount == CountLive(f, height, width, x, y, Window()[..3 * (dx + 1)])
      {
        for dy := -1 to 2
          invariant liveCount == CountLive(f, height, width, x, y, Window()[..3 * (dx + 1) + (dy + 1)])
        {
          WindowCell(f, height, width, x, y, 0, dx, dy);
          if dx == 0 && dy == 0 {
            continue;
          }
          var nx := x + dx;
          var ny := y + dy;
          if nx >= 0 && nx < height && ny >= 0 && ny < width {
            liveCount := liveCount + (if current[nx][ny] then 1 else 0);
          }
        }
      }
      assert Window()[..9] == Window();
    }

    /** The share of the parallel count that one iteration dx of the
        reduction loop adds: the live cells in row dx of the window. */
    method CountWindowRow(x: int, y: int, dx: int) returns (rowCount: int)
      requires Valid() && -1 <= dx <= 1
      ensures rowCount == CountLive(current, height, width, x, y, Window()[3 * (dx + 1)..3 * (dx + 1) + 3])
    {
      ghost var a := 3 * (dx + 1);
      rowCount := 0;
      for dy := -1 to 2
        invariant rowCount == CountLive(current, height, width, x, y, Window()[a..a + (dy + 1)])
      {
        WindowCell(current, height, width, x, y, a, dx, dy);
        if dx == 0 && dy == 0 {
          continue;
        }
        var nx := x + dx;
        var ny := y + dy;
        if nx >= 0 && nx < height && ny >= 0 && ny < width {
          rowCount := rowCount + (if current[nx][ny] then 1 else 0);
        }
      }
    }

    /** The parallel count: the rows dx of the window are counted as
        separate shares (the iterations the workers of the reduction take)
        and the partial sums are added at the end. */
    method CountLiveNeighbors(x: int, y: int) returns (liveCount: int)
      requires Valid()
      ensures liveCount == LiveNeighbours(current, height, width, x, y)
    {
      ghost var rows := RowCounts(current, height, width, x, y);
      var partial: seq<int> := [];
      for dx := -1 to 2
        invariant partial == rows[..dx + 1]
      {
        var rowCount := CountWindowRow(x, y, dx);
        assert rows[..dx + 2] == rows[..dx + 1] + [rowCount];
        partial := partial + [rowCount];
      }
      liveCount := partial[0] + partial[1] + partial[2];
    }

    /** The cell-by-cell pass of a serial step: every cell of `next` gets
        the rule applied to the current generation. */
    method NextGenerationSerial()
      requires Valid()
      modifies this
      ensures Valid()
      ensures height == old(height) && width == old(width)
      ensures current == old(current) && previous == old(previous)
      ensures next == Step(current, height, width)
    {
      for i := 0 to height
        invariant Valid()
        invariant height == old(height) && width == old(width)
        invariant current == old(current) && previous == old(previous)
        invariant forall r, c :: 0 <= r < i && 0 <= c < width ==>
          next[r][c] == NextState(current[r][c], LiveNeighbours(current, height, width, r, c))
      {
        for j := 0 to width
          invariant Valid()
          invariant height == old(height) && width == old(width)
          invariant current == old(current) && previous == old(previous)
          invariant forall r, c :: 0 <= r < i && 0 <= c < width ==>
            next[r][c] == NextState(current[r][c], LiveNeighbours(current, height, width, r, c))
          invariant forall c :: 0 <= c < j ==>
            next[i][c] == NextState(current[i][c], LiveNeighbours(current, height, width, i, c))
        {
          var liveNeighbors := CountLiveNeighborsSerial(i, j);
          if current[i][j] {
            next := next[i := next[i][j := liveNeighbors == 2 || liveNeighbors == 3]];
          } else {
            next := next[i := next[i][j := liveNeighbors == 3]];
          }
        }
      }
      FieldEquality(next, Step(current, height, width), height, width);
    }

    /** One generation, serially: the pass over all cells, then `previous`
        becomes a copy of the current generation and `current` and `next`
        are swapped. So `previous` is the generation before the step and
        `current` the one after it. */
    method EvolveSerial()
      requires Valid()
      modifies this
      ensures Valid()
      ensures height == old(height) && width == old(width)
      ensures current == Step(old(current), height, width)
      ensures previous == old(current)
      ensures next == old(current)
      ensures IsStable() <==> Step(old(current), height, width) == old(current)
      ensures AllDead(old(current)) ==> AllDead(current) && IsStable()
    {
      NextGenerationSerial();
      previous := current;
      current, next := next, current;
      if AllDead(previous) {
        DeadFieldIsFixed(previous, height, width);
      }
    }

    /** The cell-by-cell pass of the parallel step, taken in row-major
        order: each update writes its own cell of `next` and only reads
        `current`. The lost updates that concurrent writes to one packed
        row can cause are not modelled. */
    method NextGeneration()
      requires Valid()
      modifies this
      ensures Valid()
      ensures height == old(height) && width == old(width)
      ensures current == old(current) && previous == old(previous)
      ensures next == Step(current, height, width)
    {
      for i := 0 to height
        invariant Valid()
        invariant height == old(height) && width == old(width)
        invariant current == old(current) && previous == old(previous)
        invariant forall r, c :: 0 <= r < i && 0 <= c < width ==>
          next[r][c] == NextState(current[r][c], LiveNeighbours(current, height, width, r, c))
      {
        for j := 0 to width
          invariant Valid()
          invariant height == old(height) && width == old(width)
          invariant current == old(current) && previous == old(previous)
          invariant forall r, c :: 0 <= r < i && 0 <= c < width ==>
            next[r][c] == NextState(current[r][c], LiveNeighbours(current, height, width, r, c))
          invariant forall c :: 0 <= c < j ==>
            next[i][c] == NextState(current[i][c], LiveNeighbours(current, height, width, i, c))
        {
          var liveNeighbors := CountLiveNeighbors(i, j);
          if current[i][j] {
            next := next[i := next[i][j := liveNeighbors == 2 || liveNeighbors == 3]];
          } else {
            next := next[i := next[i][j := liveNeighbors == 3]];
          }
        }
      }
      FieldEquality(next, Step(current, height, width), height, width);
    }

    /** One generation with the parallel pass, then the same snapshot and
        swap; the result is the same as EvolveSerial's. */
    method Evolve()
      requires Valid()
      modifies this
      ensures Valid()
      ensures height == old(height) && width == old(width)
      ensures current == Step(old(current), height, width)
      ensures previous == old(current)
      ensures next == old(current)
      ensures IsStable() <==> Step(old(current), height, width) == old(current)
      ensures AllDead(old(current)) ==> AllDead(current) && IsStable()
    {
      NextGeneration();
      previous := current;
      current, next := next, current;
      if AllDead(previous) {
        DeadFieldIsFixed(previous, height, width);
      }
    }

    /** The grid is stable when the previous generation equals the current
        one cell for cell. */
    function IsStable(): (stable: bool)
      reads this
      requires Valid()
      ensures stable <==> forall i, j :: InBounds(height, width, i, j) ==> previous[i][j] == current[i][j]
    {
      FieldEquality(previous, current, height, width);
      previous == current
    }

    /** Evolves serially up to `generations` times, stopping right after a
        step that left the grid unchanged. Returns how many steps were
        taken. */
    method RunSerial(generations: int) returns (steps: nat)
      requires Valid()
      modifies this
      ensures Valid()
      ensures height == old(height) && width == old(width)
      ensures generations <= 0 ==> steps == 0 && current == old(current)
      ensures generations > 0 ==> 1 <= steps <= generations
      ensures current == Evolved(old(current), height, width, steps)
      ensures steps > 0 ==> previous == Evolved(old(current), height, width, steps - 1)
      ensures forall k :: 1 <= k < steps ==>
        Evolved(old(current), height, width, k) != Evolved(old(current), height, width, k - 1)
      ensures steps < generations ==> IsStable() && Step(current, height, width) == current
      ensures generations > 0 ==> current == Evolved(old(current), height, width, generations)
      ensures steps == 0 ==> previous == old(previous) && next == old(next)
      ensures steps > 0 ==> next == previous
    {
      steps := 0;
      while steps < generations
        invariant Valid()
        invariant height == old(height) && width == old(width)
        invariant generations > 0 ==> steps <= generations
        invariant generations <= 0 ==> steps == 0
        invariant current == Evolved(old(current), height, width, steps)
        invariant steps > 0 ==> previous == Evolved(old(current), height, width, steps - 1)
        invariant forall k :: 1 <= k <= steps ==>
          Evolved(old(current), height, width, k) != Evolved(old(current), height, width, k - 1)
        invariant steps == 0 ==> previous == old(previous) && next == old(next)
        invariant steps > 0 ==> next == previous
      {
        EvolveSerial();
        steps := steps + 1;
        if IsStable() {
          RunStopsAtFixedPoint(old(current), height, width, steps, generations);
          return;
        }
      }
    }

    /** The same loop over the parallel step. */
    method Run(generations: int) returns (steps: nat)
      requires Valid()
      modifies this
      ensures Valid()
      ensures height == old(height) && width == old(width)
      ensures generations <= 0 ==> steps == 0 && current == old(current)
      ensures generations > 0 ==> 1 <= steps <= generations
      ensures current == Evolved(old(current), height, width, steps)
      ensures steps > 0 ==> previous == Evolved(old(current), height, width, steps - 1)
      ensures forall k :: 1 <= k < steps ==>
        Evolved(old(current), height, width, k) != Evolved(old(current), height, width, k - 1)
      ensures steps < generations ==> IsStable() && Step(current, height, width) == current
      ensures generations > 0 ==> current == Evolved(old(current), height, width, generations)
      ensures steps == 0 ==> previous == old(previous) && next == old(next)
      ensures steps > 0 ==> next == previous
    {
      steps := 0;
      while steps < generations
        invariant Valid()
        invariant height == old(height) && width == old(width)
        invariant generations > 0 ==> steps <= generations
        invariant generations <= 0 ==> steps == 0
        invariant current == Evolved(old(current), height, width, steps)
        invariant steps > 0 ==> previous == Evolved(old(current), height, width, steps - 1)
        invariant forall k :: 1 <= k <= steps ==>
          Evolved(old(current), height, width, k) != Evolved(old(current), height, width, k - 1)
        invariant steps == 0 ==> previous == old(previous) && next == old(next)
        invariant steps > 0 ==> next == previous
      {
        Evolve();
        steps := steps + 1;
        if IsStable() {
          RunStopsAtFixedPoint(old(current), height, width, steps, generations);
          return;
        }
      }
    }

    /** The tokens saving writes: height, width, then 0 or 1 for each cell
        of the current generation, row by row. */
    method Save() returns (tokens: seq<int>)
      requires Valid()
      ensures tokens == Encode(height, width, current)
    {
      tokens := [height, width];
      for i := 0 to height
        invariant tokens == [height, width] + EncodeRows(current[..i])
      {
        var row: seq<int> := [];
        for j := 0 to width
          invariant row == EncodeRow(current[i][..j])
        {
          row := row + [if current[i][j] then 1 else 0];
          assert current[i][..j + 1] == current[i][..j] + [current[i][j]];
        }
        assert current[i][..width] == current[i];
        assert current[..i + 1][..i] == current[..i];
        tokens := tokens + row;
      }
      assert current[..height] == current;
    }

    /** The reading pass of a load: the current generation, already of the
        pattern's dimensions, is filled row by row from the cell tokens, a
        cell being alive iff its token is 1. */
    method ReadCells(tokens: seq<int>)
      requires Valid()
      requires Decode(tokens).Some? && height == tokens[0] && width == tokens[1]
      modifies this
      ensures Valid()
      ensures height == old(height) && width == old(width)
      ensures next == old(next) && previous == old(previous)
      ensures current == Decode(tokens).value.cells
    {
      ghost var cells := Decode(tokens).value.cells;
      var pos := 2;
      for i := 0 to height
        invariant Valid()
        invariant height == old(height) && width == old(width)
        invariant next == old(next) && previous == old(previous)
        invariant pos == 2 + i * width
        invariant forall r :: 0 <= r < i ==> current[r] == cells[r]
      {
        for j := 0 to width
          invariant Valid()
          invariant height == old(height) && width == old(width)
          invariant next == old(next) && previous == old(previous)
          invariant pos == 2 + i * width + j
          invariant forall r :: 0 <= r < i ==> current[r] == cells[r]
          invariant forall c :: 0 <= c < j ==> current[i][c] == cells[i][c]
        {
          DecodedCell(tokens, i, j);
          var cell := tokens[pos];
          pos := pos + 1;
          current := current[i := current[i][j := cell == 1]];
        }
        assert current[i] == cells[i];
      }
      FieldEquality(current, cells, height, width);
    }

    /** Reads a pattern from its tokens: sets the dimensions and resizes the
        three generations as SetSize does, then reads the cells. The grid
        must be empty, or already of the pattern's width, or the pattern of
        height 0, so that every row ends up of the new width. */
    method Load(tokens: seq<int>)
      requires Valid()
      requires Decode(tokens).Some?
      requires height == 0 || tokens[0] == 0 || width == tokens[1]
      modifies this
      ensures Valid()
      ensures height == tokens[0] && width == tokens[1]
      ensures current == Decode(tokens).value.cells
      ensures next == Resized(old(next), height, width)
      ensures previous == Resized(old(previous), height, width)
    {
      SetSize(tokens[0], tokens[1]);
      ReadCells(tokens);
    }

    /** Pattern initialisation reads the same tokens the same way as Load. */
    method InitializePattern(tokens: seq<int>)
      requires Valid()
      requires Decode(tokens).Some?
      requires height == 0 || tokens[0] == 0 || width == tokens[1]
      modifies this
      ensures Valid()
      ensures height == tokens[0] && width == tokens[1]
      ensures current == Decode(tokens).value.cells
      ensures next == Resized(old(next), height, width)
      ensures previous == Resized(old(previous), height, width)
    {
      Load(tokens);
    }
  }

  /** Saving a grid and loading the tokens into a new, empty grid gives
      back its dimensions and its current generation. */
  method SaveThenLoad(g: Grid) returns (restored: Grid)
    requires g.Valid()
    ensures restored.Valid()
    ensures restored.height == g.height && restored.width == g.width
    ensures restored.current == g.current
  {
    var tokens := g.Save();
    DecodeEncode(g.height, g.width, g.current);
    restored := new Grid.Empty();
    restored.Load(tokens);
  }
}
