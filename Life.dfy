/** Conway's Game of Life on a bounded field (no wraparound): the Moore
    neighbourhood count, the B3/S23 rule and one generation step, as pure
    functions, with the facts about them that the grid relies on. */
module Life {

  /** A generation: rows of cells, `true` meaning alive. */
  type Field = seq<seq<bool>>

  /** `f` has exactly `h` rows of exactly `w` cells each. */
  predicate IsShape(f: Field, h: int, w: int) {
    |f| == h && forall i :: 0 <= i < |f| ==> |f[i]| == w
  }

  /** (x, y) is a cell of an h×w field. */
  predicate InBounds(h: int, w: int, x: int, y: int) {
    0 <= x < h && 0 <= y < w
  }

  function BlankRow(w: nat): seq<bool> {
    seq(w, _ => false)
  }

  /** An h×w field with every cell dead. */
  function Blank(h: nat, w: nat): Field {
    seq(h, _ => BlankRow(w))
  }

  predicate AllDead(f: Field) {
    forall i, j :: 0 <= i < |f| && 0 <= j < |f[i]| ==> !f[i][j]
  }

  /** Two fields of the same shape are equal exactly when they agree cell by cell. */
  lemma FieldEquality(f: Field, g: Field, h: int, w: int)
    requires IsShape(f, h, w) && IsShape(g, h, w)
    ensures f == g <==> forall i, j :: InBounds(h, w, i, j) ==> f[i][j] == g[i][j]
  {
    if forall i, j :: InBounds(h, w, i, j) ==> f[i][j] == g[i][j] {
      forall i | 0 <= i < h
        ensures f[i] == g[i]
      {
        assert forall j :: 0 <= j < w ==> f[i][j] == g[i][j];
      }
    }
  }

  /** Resizing to `h` rows the way std::vector::resize does it: the first
      rows are kept exactly as they were (whatever their length), missing
      rows are appended as dead rows of width `w`. */
  function Resized(f: Field, h: nat, w: nat): (g: Field)
    ensures |g| == h
    ensures forall i :: 0 <= i < h && i < |f| ==> g[i] == f[i]
    ensures forall i :: |f| <= i < h ==> g[i] == BlankRow(w)
  {
    if h <= |f| then f[..h] else f + seq(h - |f|, _ => BlankRow(w))
  }

  // ---------------------------------------------------------------------
  // Neighbour count

  /** The 3×3 window of offsets in the order the counting loops visit
      them: dx from -1 to 1 and, for each dx, dy from -1 to 1. */
  function Window(): seq<(int, int)> {
    seq(9, k => (k / 3 - 1, k % 3 - 1))
  }

  /** The cell at offset `o` from (x, y) is a live neighbour: it is not
      (x, y) itself, it lies inside the field, and it is alive. */
  predicate LiveAt(f: Field, h: int, w: int, x: int, y: int, o: (int, int))
    requires IsShape(f, h, w)
  {
    o != (0, 0) && InBounds(h, w, x + o.0, y + o.1) && f[x + o.0][y + o.1]
  }

  /** How many offsets of `offs` are live neighbours of (x, y). */
  function CountLive(f: Field, h: int, w: int, x: int, y: int, offs: seq<(int, int)>): (n: nat)
    requires IsShape(f, h, w)
    ensures n <= |offs|
    decreases |offs|
  {
    if offs == [] then 0
    else
      CountLive(f, h, w, x, y, offs[..|offs| - 1])
      + (if LiveAt(f, h, w, x, y, offs[|offs| - 1]) then 1 else 0)
  }

  lemma CountLiveSnoc(f: Field, h: int, w: int, x: int, y: int, offs: seq<(int, int)>, o: (int, int))
    requires IsShape(f, h, w)
    ensures CountLive(f, h, w, x, y, offs + [o])
         == CountLive(f, h, w, x, y, offs) + (if LiveAt(f, h, w, x, y, o) then 1 else 0)
  {
    assert (offs + [o])[..|offs|] == offs;
  }

  /** Counting is additive over a split of the offsets, so partial counts
      may be formed separately and summed in any grouping. */
  lemma {:induction false} CountLiveAppend(f: Field, h: int, w: int, x: int, y: int, s: seq<(int, int)>, t: seq<(int, int)>)
    requires IsShape(f, h, w)
    ensures CountLive(f, h, w, x, y, s + t) == CountLive(f, h, w, x, y, s) + CountLive(f, h, w, x, y, t)
    decreases |t|
  {
    if t == [] {
      assert s + t == s;
    } else {
      var t' := t[..|t| - 1];
      var o := t[|t| - 1];
      assert t == t' + [o];
      assert s + t == (s + t') + [o];
      CountLiveAppend(f, h, w, x, y, s, t');
      CountLiveSnoc(f, h, w, x, y, s + t', o);
      CountLiveSnoc(f, h, w, x, y, t', o);
    }
  }

  /** One step of the counting loops: window position `k` holds the offset
      (k / 3 - 1, k % 3 - 1) and adds one exactly when that cell is live. */
  lemma WindowStep(f: Field, h: int, w: int, x: int, y: int, a: nat, k: nat)
    requires IsShape(f, h, w) && a <= k < 9
    ensures Window()[k] == (k / 3 - 1, k % 3 - 1)
    ensures CountLive(f, h, w, x, y, Window()[a..k + 1])
         == CountLive(f, h, w, x, y, Window()[a..k]) + (if LiveAt(f, h, w, x, y, Window()[k]) then 1 else 0)
  {
    assert Window()[a..k + 1] == Window()[a..k] + [Window()[k]];
    CountLiveSnoc(f, h, w, x, y, Window()[a..k], Window()[k]);
  }

  /** What the counting loops add at window offset (dx, dy): nothing for the
      centre, one for a live cell inside the field, nothing otherwise. */
  lemma WindowCell(f: Field, h: int, w: int, x: int, y: int, a: nat, dx: int, dy: int)
    requires IsShape(f, h, w) && -1 <= dx <= 1 && -1 <= dy <= 1
    requires a <= 3 * (dx + 1) + (dy + 1)
    ensures CountLive(f, h, w, x, y, Window()[a..3 * (dx + 1) + (dy + 1) + 1])
         == CountLive(f, h, w, x, y, Window()[a..3 * (dx + 1) + (dy + 1)])
            + (if (dx, dy) != (0, 0) && InBounds(h, w, x + dx, y + dy) && f[x + dx][y + dy] then 1 else 0)
  {
    var k := 3 * (dx + 1) + (dy + 1);
    WindowStep(f, h, w, x, y, a, k);
    assert Window()[k] == (dx, dy);
  }

  /** The number of live Moore neighbours of (x, y); cells off the edge
      count as dead. */
  function LiveNeighbours(f: Field, h: int, w: int, x: int, y: int): (n: nat)
    requires IsShape(f, h, w)
    ensures n <= 8
  {
    var W := Window();
    CountLiveAppend(f, h, w, x, y, W[..4], W[4..]);
    CountLiveAppend(f, h, w, x, y, [W[4]], W[5..]);
    assert W == W[..4] + W[4..];
    assert W[4..] == [W[4]] + W[5..];
    assert !LiveAt(f, h, w, x, y, W[4]);
    CountLiveSnoc(f, h, w, x, y, [], W[4]);
    CountLive(f, h, w, x, y, W)
  }

  /** The live-neighbour counts of the three rows dx = -1, 0, 1 of the window. */
  function RowCounts(f: Field, h: int, w: int, x: int, y: int): (rows: seq<nat>)
    requires IsShape(f, h, w)
    ensures |rows| == 3
    ensures rows[0] + rows[1] + rows[2] == LiveNeighbours(f, h, w, x, y)
  {
    var W := Window();
    assert W == W[0..3] + W[3..6] + W[6..9];
    CountLiveAppend(f, h, w, x, y, W[0..3] + W[3..6], W[6..9]);
    CountLiveAppend(f, h, w, x, y, W[0..3], W[3..6]);
    seq(3, d requires 0 <= d < 3 => CountLive(f, h, w, x, y, W[3 * d..3 * d + 3]))
  }

  lemma {:induction false} NoLiveOnDeadField(f: Field, h: int, w: int, x: int, y: int, offs: seq<(int, int)>)
    requires IsShape(f, h, w) && AllDead(f)
    ensures CountLive(f, h, w, x, y, offs) == 0
    decreases |offs|
  {
    if offs != [] {
      NoLiveOnDeadField(f, h, w, x, y, offs[..|offs| - 1]);
    }
  }

  /** The live neighbours of (x, y), as the set of their offsets. */
  ghost function NeighbourSet(f: Field, h: int, w: int, x: int, y: int): set<(int, int)>
    requires IsShape(f, h, w)
  {
    set dx: int, dy: int | -1 <= dx <= 1 && -1 <= dy <= 1 && LiveAt(f, h, w, x, y, (dx, dy)) :: (dx, dy)
  }

  /** The live offsets among the first `k` window positions. */
  ghost function WindowSet(f: Field, h: int, w: int, x: int, y: int, k: nat): set<(int, int)>
    requires IsShape(f, h, w) && k <= 9
  {
    set i | 0 <= i < k && LiveAt(f, h, w, x, y, Window()[i]) :: Window()[i]
  }

  lemma WindowSetSnoc(f: Field, h: int, w: int, x: int, y: int, k: nat)
    requires IsShape(f, h, w) && 0 < k <= 9
    ensures Window()[k - 1] !in WindowSet(f, h, w, x, y, k - 1)
    ensures WindowSet(f, h, w, x, y, k)
         == WindowSet(f, h, w, x, y, k - 1)
            + (if LiveAt(f, h, w, x, y, Window()[k - 1]) then {Window()[k - 1]} else {})
  {
  }

  lemma {:induction false} WindowSetSize(f: Field, h: int, w: int, x: int, y: int, k: nat)
    requires IsShape(f, h, w) && k <= 9
    ensures |WindowSet(f, h, w, x, y, k)| == CountLive(f, h, w, x, y, Window()[..k])
  {
    if k > 0 {
      WindowSetSize(f, h, w, x, y, k - 1);
      WindowStep(f, h, w, x, y, 0, k - 1);
      WindowSetSnoc(f, h, w, x, y, k);
    }
  }

  /** The count equals the number of offsets (dx, dy) ≠ (0, 0) with
      |dx|, |dy| ≤ 1 whose cell is inside the field and alive. */
  lemma LiveNeighboursIsSetSize(f: Field, h: int, w: int, x: int, y: int)
    requires IsShape(f, h, w)
    ensures LiveNeighbours(f, h, w, x, y) == |NeighbourSet(f, h, w, x, y)|
  {
    WindowSetSize(f, h, w, x, y, 9);
    assert Window()[..9] == Window();
    var S := WindowSet(f, h, w, x, y, 9);
    forall o | o in NeighbourSet(f, h, w, x, y)
      ensures o in S
    {
      var i := 3 * (o.0 + 1) + (o.1 + 1);
      assert Window()[i] == o;
    }
    assert S == NeighbourSet(f, h, w, x, y);
  }

  // ---------------------------------------------------------------------
  // The rule and one generation

  /** B3/S23: a live cell survives with 2 or 3 live neighbours, a dead cell
      comes alive with exactly 3. */
  predicate NextState(alive: bool, n: int) {
    if alive then n == 2 || n == 3 else n == 3
  }

  /** The generation that follows `f`. */
  function Step(f: Field, h: int, w: int): (g: Field)
    requires IsShape(f, h, w) && w >= 0
    ensures IsShape(g, h, w)
    ensures forall i, j :: InBounds(h, w, i, j) ==>
      (g[i][j] <==> LiveNeighbours(f, h, w, i, j) == 3 || (f[i][j] && LiveNeighbours(f, h, w, i, j) == 2))
  {
    seq(h, i requires 0 <= i < h =>
      seq(w, j requires 0 <= j < w => NextState(f[i][j], LiveNeighbours(f, h, w, i, j))))
  }

  /** The generation `n` steps after `f`. */
  function Evolved(f: Field, h: int, w: int, n: nat): (g: Field)
    requires IsShape(f, h, w) && w >= 0
    ensures IsShape(g, h, w)
  {
    if n == 0 then f else Step(Evolved(f, h, w, n - 1), h, w)
  }

  /** A field with no live cell is its own successor. */
  lemma DeadFieldIsFixed(f: Field, h: int, w: int)
    requires IsShape(f, h, w) && w >= 0 && AllDead(f)
    ensures Step(f, h, w) == f
  {
    var g := Step(f, h, w);
    forall i, j | InBounds(h, w, i, j)
      ensures g[i][j] == f[i][j]
    {
      NoLiveOnDeadField(f, h, w, i, j, Window());
    }
    FieldEquality(f, g, h, w);
  }

  /** Once a field is its own successor, it stays so for any number of steps. */
  lemma {:induction false} FixedPointPersists(f: Field, h: int, w: int, n: nat)
    requires IsShape(f, h, w) && w >= 0 && Step(f, h, w) == f
    ensures Evolved(f, h, w, n) == f
  {
    if n > 0 {
      FixedPointPersists(f, h, w, n - 1);
    }
  }

  /** a + b generations are a generations followed by b more. */
  lemma {:induction false} EvolvedAdd(f: Field, h: int, w: int, a: nat, b: nat)
    requires IsShape(f, h, w) && w >= 0
    ensures Evolved(f, h, w, a + b) == Evolved(Evolved(f, h, w, a), h, w, b)
  {
    if b > 0 {
      EvolvedAdd(f, h, w, a, b - 1);
      assert a + b - 1 == a + (b - 1);
    }
  }

  /** Stopping at generation s, when generation s is a fixed point, leaves
      the same field as running on to any later generation n. */
  lemma RunStopsAtFixedPoint(f: Field, h: int, w: int, s: nat, n: int)
    requires IsShape(f, h, w) && w >= 0 && s <= n
    requires Step(Evolved(f, h, w, s), h, w) == Evolved(f, h, w, s)
    ensures Evolved(f, h, w, n) == Evolved(f, h, w, s)
  {
    EvolvedAdd(f, h, w, s, n - s);
    FixedPointPersists(Evolved(f, h, w, s), h, w, n - s);
  }

  /** Every cell has at most one live neighbour when only (a, b) is alive,
      and (a, b) itself has none. */
  lemma LoneCellNeighbours(f: Field, h: int, w: int, a: int, b: int, i: int, j: int)
    requires IsShape(f, h, w) && InBounds(h, w, a, b)
    requires forall i, j :: InBounds(h, w, i, j) && (i, j) != (a, b) ==> !f[i][j]
    ensures LiveNeighbours(f, h, w, i, j) <= 1
    ensures (i, j) == (a, b) ==> LiveNeighbours(f, h, w, i, j) == 0
  {
    var S := NeighbourSet(f, h, w, i, j);
    var o := (a - i, b - j);
    assert S <= {o};
    assert S == {} || S == {o};
    assert (i, j) == (a, b) ==> S == {};
    LiveNeighboursIsSetSize(f, h, w, i, j);
  }

  /** A single live cell with no other live cell anywhere dies, and no cell
      is born: the next generation is all dead. */
  lemma LoneCellDies(f: Field, h: int, w: int, a: int, b: int)
    requires IsShape(f, h, w) && w >= 0 && InBounds(h, w, a, b) && f[a][b]
    requires forall i, j :: InBounds(h, w, i, j) && (i, j) != (a, b) ==> !f[i][j]
    ensures AllDead(Step(f, h, w))
  {
    var g := Step(f, h, w);
    forall i, j | 0 <= i < |g| && 0 <= j < |g[i]|
      ensures !g[i][j]
    {
      LoneCellNeighbours(f, h, w, a, b, i, j);
    }
  }
}
