/** The integer tokens of a pattern or saved-state file: height, width,
    then height·width cell values in row-major order. Saving writes 1 for
    a live cell and 0 for a dead one; loading takes a cell as alive only
    when its token is exactly 1. Opening and reading the file itself is
    not modelled here: a file is the sequence of its integer tokens. */
module PatternTokens {
  import opened Life

  datatype Option<T> = None | Some(value: T)

  /** Dimensions and cells read from a token sequence. */
  datatype Pattern = Pattern(height: nat, width: nat, cells: Field)

  /** Row `i`, column `j` of an h×w field lies at position i·w + j of the
      row-major cell tokens, and that position is below h·w. */
  lemma RowMajorBound(h: int, w: int, i: int, j: int)
    requires InBounds(h, w, i, j)
    ensures 0 <= i * w + j < h * w
  {
    assert i * w <= (h - 1) * w by {
      assert (h - 1) * w - i * w == (h - 1 - i) * w;
    }
    assert (h - 1) * w + w == h * w;
  }

  /** Every position below h·w (w > 0) is reached from exactly one cell. */
  lemma RowMajorSplit(h: int, w: int, k: int)
    requires w > 0 && 0 <= k < h * w
    ensures InBounds(h, w, k / w, k % w) && k == (k / w) * w + k % w
  {
  }

  /** The token written for one cell. */
  function Bit(alive: bool): int {
    if alive then 1 else 0
  }

  function EncodeRow(r: seq<bool>): seq<int> {
    seq(|r|, j requires 0 <= j < |r| => Bit(r[j]))
  }

  /** The cell tokens of `f`, row after row. */
  function EncodeRows(f: Field): seq<int>
    decreases |f|
  {
    if f == [] then [] else EncodeRows(f[..|f| - 1]) + EncodeRow(f[|f| - 1])
  }

  /** The tokens that saving an h×w field writes. */
  function Encode(h: int, w: int, f: Field): seq<int> {
    [h, w] + EncodeRows(f)
  }

  lemma {:induction false} EncodeRowsLength(f: Field, w: int)
    requires w >= 0 && IsShape(f, |f|, w)
    ensures |EncodeRows(f)| == |f| * w
    decreases |f|
  {
    if f != [] {
      EncodeRowsLength(f[..|f| - 1], w);
      assert (|f| - 1) * w + w == |f| * w;
    }
  }

  lemma {:induction false} EncodeRowsAt(f: Field, w: int, i: int, j: int)
    requires w >= 0 && IsShape(f, |f|, w) && InBounds(|f|, w, i, j)
    ensures i * w + j < |EncodeRows(f)| && EncodeRows(f)[i * w + j] == Bit(f[i][j])
    decreases |f|
  {
    var h := |f|;
    var f' := f[..h - 1];
    EncodeRowsLength(f', w);
    EncodeRowsLength(f, w);
    var t := EncodeRows(f);
    assert t == EncodeRows(f') + EncodeRow(f[h - 1]);
    if i < h - 1 {
      RowMajorBound(h - 1, w, i, j);
      EncodeRowsAt(f', w, i, j);
      assert t[i * w + j] == EncodeRows(f')[i * w + j];
    } else {
      assert i * w + j == (h - 1) * w + j by {
        assert i == h - 1;
      }
      assert t[i * w + j] == EncodeRow(f[h - 1])[j];
    }
  }

  /** The tokens of an h×w field are h, w and then h·w tokens, each 0 or 1,
      the one for cell (i, j) at position 2 + i·w + j. */
  lemma EncodeLayout(h: int, w: int, f: Field)
    requires w >= 0 && IsShape(f, h, w)
    ensures |Encode(h, w, f)| == 2 + h * w
    ensures Encode(h, w, f)[0] == h && Encode(h, w, f)[1] == w
    ensures forall k :: 2 <= k < |Encode(h, w, f)| ==> Encode(h, w, f)[k] in {0, 1}
    ensures forall i, j :: InBounds(h, w, i, j) ==>
      2 + i * w + j < |Encode(h, w, f)| && Encode(h, w, f)[2 + i * w + j] == Bit(f[i][j])
  {
    EncodeRowsLength(f, w);
    forall k | 2 <= k < |Encode(h, w, f)|
      ensures Encode(h, w, f)[k] in {0, 1}
    {
      RowMajorSplit(h, w, k - 2);
      EncodeRowsAt(f, w, (k - 2) / w, (k - 2) % w);
    }
    forall i, j | InBounds(h, w, i, j)
      ensures 2 + i * w + j < |Encode(h, w, f)| && Encode(h, w, f)[2 + i * w + j] == Bit(f[i][j])
    {
      EncodeRowsAt(f, w, i, j);
    }
  }

  /** Reads a token sequence: None when it is too short for its own
      dimensions or a dimension is negative; otherwise the h×w field whose
      cell (i, j) is alive iff token 2 + i·w + j equals 1. Tokens after the
      last cell are ignored. */
  function Decode(t: seq<int>): (r: Option<Pattern>)
    ensures r.None? <==> |t| < 2 || t[0] < 0 || t[1] < 0 || |t| < 2 + t[0] * t[1]
    ensures r.Some? ==> IsShape(r.value.cells, r.value.height, r.value.width)
    ensures r.Some? ==> |t| >= 2 + r.value.height * r.value.width
    ensures r.Some? ==> r.value.height == t[0] && r.value.width == t[1]
  {
    if |t| < 2 || t[0] < 0 || t[1] < 0 || |t| < 2 + t[0] * t[1] then None
    else
      var h, w := t[0], t[1];
      Some(Pattern(h, w, seq(h, i requires 0 <= i < h =>
        seq(w, j requires 0 <= j < w => CellToken(t, h, w, i, j) == 1))))
  }

  /** The token for cell (i, j). */
  function CellToken(t: seq<int>, h: int, w: int, i: int, j: int): int
    requires InBounds(h, w, i, j) && |t| >= 2 + h * w
  {
    RowMajorBound(h, w, i, j);
    t[2 + i * w + j]
  }

  /** Cell (i, j) of a decoded pattern is alive exactly when its token is 1:
      any other value, 2 or -1 included, reads as dead. */
  lemma DecodedCell(t: seq<int>, i: int, j: int)
    requires Decode(t).Some?
    requires InBounds(Decode(t).value.height, Decode(t).value.width, i, j)
    ensures 2 + i * t[1] + j < |t|
    ensures Decode(t).value.cells[i][j] <==> t[2 + i * t[1] + j] == 1
  {
    RowMajorBound(t[0], t[1], i, j);
  }

  /** Decoding what saving wrote gives back the dimensions and every cell. */
  lemma DecodeEncode(h: int, w: int, f: Field)
    requires h >= 0 && w >= 0 && IsShape(f, h, w)
    ensures Decode(Encode(h, w, f)) == Some(Pattern(h, w, f))
  {
    var t := Encode(h, w, f);
    EncodeLayout(h, w, f);
    var g := Decode(t).value.cells;
    forall i, j | InBounds(h, w, i, j)
      ensures g[i][j] == f[i][j]
    {
      DecodedCell(t, i, j);
    }
    FieldEquality(f, g, h, w);
  }

  /** Conversely, a token sequence with nothing after its cells and only 0
      and 1 as cell tokens is exactly what saving its decoded pattern writes. */
  lemma EncodeDecode(t: seq<int>)
    requires Decode(t).Some?
    requires |t| == 2 + t[0] * t[1]
    requires forall k :: 2 <= k < |t| ==> t[k] in {0, 1}
    ensures Encode(t[0], t[1], Decode(t).value.cells) == t
  {
    var p := Decode(t).value;
    var h, w := p.height, p.width;
    var e := Encode(h, w, p.cells);
    EncodeLayout(h, w, p.cells);
    forall k | 2 <= k < |t|
      ensures e[k] == t[k]
    {
      var c := k - 2;
      RowMajorSplit(h, w, c);
      var i, j := c / w, c % w;
      DecodedCell(t, i, j);
    }
    assert e == t;
  }
}
