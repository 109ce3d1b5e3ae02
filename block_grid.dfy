/**
 * `BlockGrid`: a world's blocks, `layers` deep at every column `x` and row
 * `y`, flattened into one array. The layers of a cell are adjacent, cells
 * are laid out row by row, so `(layer, x, y)` lives at
 * `layers * (width * y + x) + layer`. An empty cell holds null.
 */
module BlockGrid {
  import opened Java
  import Bytes
  import Serializer
  import DataReader

  type Block = Serializer.Transportable

  /** `getTopBlockLayer`'s answer for a cell with no block in any layer. */
  const INVALID_LAYER: int := -1

  // Index arithmetic.

  lemma MulLeq(a: int, b: int, c: int)
    requires a >= 0 && b <= c
    ensures a * b <= a * c
  {
    assert a * c - a * b == a * (c - b);
  }

  lemma MulLess(k: int, a: int, b: int)
    requires k > 0 && k * a < k * b
    ensures a < b
  {
    if a >= b {
      MulLeq(k, b, a);
    }
  }

  /** Every valid coordinate lands inside an array of `layers * width * height` cells. */
  lemma ComputeBounds(layers: int, width: int, height: int, layer: int, x: int, y: int)
    requires 0 <= layer < layers && 0 <= x < width && 0 <= y < height
    ensures 0 <= layers * (width * y + x) + layer < layers * width * height
  {
    var c := width * y + x;
    MulLeq(width, 0, y);
    MulLeq(width, y + 1, height);
    assert width * (y + 1) == width * y + width;
    MulLeq(layers, 0, c);
    MulLeq(layers, c + 1, width * height);
    assert layers * (c + 1) == layers * c + layers;
    assert layers * (width * height) == layers * width * height;
  }

  /** Two valid coordinates with the same index are the same coordinate. */
  lemma ComputeInjective(layers: int, width: int, l1: int, x1: int, y1: int, l2: int, x2: int, y2: int)
    requires 0 <= l1 < layers && 0 <= x1 < width && 0 <= l2 < layers && 0 <= x2 < width
    requires layers * (width * y1 + x1) + l1 == layers * (width * y2 + x2) + l2
    ensures l1 == l2 && x1 == x2 && y1 == y2
  {
    var i := layers * (width * y1 + x1) + l1;
    DivModUnique(i, layers, width * y1 + x1, l1);
    DivModUnique(i, layers, width * y2 + x2, l2);
    DivModUnique(width * y1 + x1, width, y1, x1);
    DivModUnique(width * y1 + x1, width, y2, x2);
  }

  lemma ProductNonNegative(layers: int, width: int, height: int)
    requires 0 <= layers && 0 <= width && 0 <= height
    ensures 0 <= layers * width * height
  {
    MulLeq(layers, 0, width);
    MulLeq(layers * width, 0, height);
  }

  /** With at least one row, a layer-by-column count fits wherever the whole grid does. */
  lemma ProductNoWrap(layers: int, width: int, height: int)
    requires 0 <= layers && 0 <= width && 0 <= height && layers * width * height <= INT_MAX
    ensures ToInt32(ToInt32(layers * width) * height) == layers * width * height
  {
    if height == 0 {
      WrapId(0, 0x1_0000_0000);
    } else {
      MulLeq(layers * width, 1, height);
      MulLeq(layers, 0, width);
      WrapId(layers * width, 0x1_0000_0000);
      MulLeq(layers * width, 0, height);
      WrapId(layers * width * height, 0x1_0000_0000);
    }
  }

  // `fill`: one `Arrays.fill` per row, with the int arithmetic of the source.

  /** Where `fill`'s range for `row` starts: `this.width * layers * row + x1 * layers`. */
  function RowFrom(width: int, layers: int, x1: int, row: int): int32
  {
    ToInt32(ToInt32(ToInt32(width * layers) * row) + ToInt32(x1 * layers))
  }

  /** Where it ends: `this.width * layers * row + (x1 + width) * layers`. */
  function RowTo(width: int, layers: int, x1: int, w: int, row: int): int32
  {
    ToInt32(ToInt32(ToInt32(width * layers) * row) + ToInt32(ToInt32(x1 + w) * layers))
  }

  /** `Arrays.fill` on an array of `length` accepts the range of `row`. */
  predicate RowFits(length: int, width: int, layers: int, x1: int, w: int, row: int)
  {
    0 <= RowFrom(width, layers, x1, row) <= RowTo(width, layers, x1, w, row) <= length
  }

  /** The exception `Arrays.fill` throws for a range it refuses. */
  function RowError(width: int, layers: int, x1: int, w: int, row: int): Exception
  {
    if RowFrom(width, layers, x1, row) > RowTo(width, layers, x1, w, row) then IllegalArgument
    else IndexOutOfBounds
  }

  /** Index `i` lies in the range of one of the rows `y1` to `rowEnd - 1`. */
  ghost predicate Covered(width: int, layers: int, x1: int, w: int, y1: int, rowEnd: int, i: int)
  {
    exists row :: y1 <= row < rowEnd && RowFrom(width, layers, x1, row) <= i < RowTo(width, layers, x1, w, row)
  }

  /** The cells after `fill` has done the rows `y1` to `rowEnd - 1`. */
  ghost function Filled(cells: seq<Option<Block>>, block: Option<Block>,
      width: int, layers: int, x1: int, w: int, y1: int, rowEnd: int): (r: seq<Option<Block>>)
    ensures |r| == |cells|
  {
    seq(|cells|, i requires 0 <= i < |cells| => if Covered(width, layers, x1, w, y1, rowEnd, i) then block else cells[i])
  }

  /** `cells` with the block stored from `from` to `to - 1`, as `Arrays.fill` leaves them. */
  function FillSeq(cells: seq<Option<Block>>, from: int, to: int, block: Option<Block>): (r: seq<Option<Block>>)
    ensures |r| == |cells|
  {
    seq(|cells|, i requires 0 <= i < |cells| => if from <= i < to then block else cells[i])
  }

  lemma FilledNone(cells: seq<Option<Block>>, block: Option<Block>, width: int, layers: int, x1: int, w: int,
      y1: int, rowEnd: int)
    requires rowEnd <= y1
    ensures Filled(cells, block, width, layers, x1, w, y1, rowEnd) == cells
  {
  }

  /**
   * What `fill`'s loop does from `row` on, up to `y2 - 1`: each row's
   * `Arrays.fill`, until a row is refused with its exception.
   */
  function FillRows(cells: seq<Option<Block>>, block: Option<Block>,
      width: int, layers: int, x1: int, w: int, row: int, y2: int): (r: (Result<()>, seq<Option<Block>>))
    ensures |r.1| == |cells|
    decreases y2 - row
  {
    if row >= y2 then (Ok(()), cells)
    else if !RowFits(|cells|, width, layers, x1, w, row) then (Err(RowError(width, layers, x1, w, row)), cells)
    else FillRows(FillSeq(cells, RowFrom(width, layers, x1, row), RowTo(width, layers, x1, w, row), block),
      block, width, layers, x1, w, row + 1, y2)
  }

  /**
   * `fill` succeeds exactly when every row's range fits the array, and then
   * sets every index some row covers; otherwise it fails at the first row
   * refused, with that row's exception, the rows before it filled.
   */
  lemma FillOutcome(cells: seq<Option<Block>>, block: Option<Block>, width: int, layers: int, x1: int, w: int, y1: int, y2: int)
    ensures var r := FillRows(cells, block, width, layers, x1, w, y1, y2);
      (r.0.Ok? <==> forall row | y1 <= row < y2 :: RowFits(|cells|, width, layers, x1, w, row))
      && (r.0.Ok? ==> r.1 == Filled(cells, block, width, layers, x1, w, y1, y2))
      && (r.0.Err? ==> exists row | y1 <= row < y2 ::
        (forall before | y1 <= before < row :: RowFits(|cells|, width, layers, x1, w, before))
        && !RowFits(|cells|, width, layers, x1, w, row)
        && r.0.error == RowError(width, layers, x1, w, row)
        && r.1 == Filled(cells, block, width, layers, x1, w, y1, row))
  {
    FilledNone(cells, block, width, layers, x1, w, y1, y1);
    if y2 <= y1 {
      FilledNone(cells, block, width, layers, x1, w, y1, y2);
    } else {
      FillOkFrom(cells, block, width, layers, x1, w, y1, y1, y2);
      FillErrFrom(cells, block, width, layers, x1, w, y1, y1, y2);
    }
  }

  /** From row `row` on, the loop succeeds exactly when all rows fit, and then fills them all. */
  lemma {:induction false} FillOkFrom(cells: seq<Option<Block>>, block: Option<Block>,
      width: int, layers: int, x1: int, w: int, y1: int, row: int, y2: int)
    requires y1 <= row <= y2
    requires forall before | y1 <= before < row :: RowFits(|cells|, width, layers, x1, w, before)
    ensures var r := FillRows(Filled(cells, block, width, layers, x1, w, y1, row), block, width, layers, x1, w, row, y2);
      (r.0.Ok? <==> forall k | y1 <= k < y2 :: RowFits(|cells|, width, layers, x1, w, k))
      && (r.0.Ok? ==> r.1 == Filled(cells, block, width, layers, x1, w, y1, y2))
    decreases y2 - row
  {
    if row < y2 && RowFits(|cells|, width, layers, x1, w, row) {
      FilledStep(cells, block, width, layers, x1, w, y1, row);
      FillOkFrom(cells, block, width, layers, x1, w, y1, row + 1, y2);
    }
  }

  /** From row `row` on, a failing loop stops at the first row refused, the rows before it filled. */
  lemma {:induction false} FillErrFrom(cells: seq<Option<Block>>, block: Option<Block>,
      width: int, layers: int, x1: int, w: int, y1: int, row: int, y2: int)
    requires y1 <= row <= y2
    requires forall before | y1 <= before < row :: RowFits(|cells|, width, layers, x1, w, before)
    ensures var r := FillRows(Filled(cells, block, width, layers, x1, w, y1, row), block, width, layers, x1, w, row, y2);
      r.0.Err? ==> exists k | row <= k < y2 ::
        (forall before | y1 <= before < k :: RowFits(|cells|, width, layers, x1, w, before))
        && !RowFits(|cells|, width, layers, x1, w, k)
        && r.0.error == RowError(width, layers, x1, w, k)
        && r.1 == Filled(cells, block, width, layers, x1, w, y1, k)
    decreases y2 - row
  {
    if row < y2 {
      if RowFits(|cells|, width, layers, x1, w, row) {
        FilledStep(cells, block, width, layers, x1, w, y1, row);
        FillErrFrom(cells, block, width, layers, x1, w, y1, row + 1, y2);
      } else {
        var here := Filled(cells, block, width, layers, x1, w, y1, row);
        assert FillRows(here, block, width, layers, x1, w, row, y2).0 == Err(RowError(width, layers, x1, w, row));
      }
    }
  }

  /** The next row adds its range to what the rows before it covered. */
  lemma CoveredStep(width: int, layers: int, x1: int, w: int, y1: int, row: int, i: int)
    requires y1 <= row
    ensures Covered(width, layers, x1, w, y1, row + 1, i)
      == (RowFrom(width, layers, x1, row) <= i < RowTo(width, layers, x1, w, row)
        || Covered(width, layers, x1, w, y1, row, i))
  {
    if Covered(width, layers, x1, w, y1, row + 1, i) {
      var r :| y1 <= r < row + 1 && RowFrom(width, layers, x1, r) <= i < RowTo(width, layers, x1, w, r);
      if r < row {
        assert Covered(width, layers, x1, w, y1, row, i);
      }
    }
  }

  lemma FilledStep(cells: seq<Option<Block>>, block: Option<Block>,
      width: int, layers: int, x1: int, w: int, y1: int, row: int)
    requires y1 <= row
    ensures Filled(cells, block, width, layers, x1, w, y1, row + 1)
      == FillSeq(Filled(cells, block, width, layers, x1, w, y1, row),
        RowFrom(width, layers, x1, row), RowTo(width, layers, x1, w, row), block)
  {
    forall i | 0 <= i < |cells| {
      CoveredStep(width, layers, x1, w, y1, row, i);
    }
  }

  /**
   * Inside the grid `fill`'s arithmetic does not overflow: row `row` of a
   * rectangle within the width covers the array from `x1` to `x1 + w` in that row.
   */
  lemma RowBounds(layers: int32, width: int32, height: int32, x1: int, w: int, row: int)
    requires 0 <= layers && 0 <= width && 0 <= height && layers * width * height <= INT_MAX
    requires 0 <= x1 && 0 <= w && x1 + w <= width && 0 <= row < height
    ensures RowFrom(width, layers, x1, row) == width * layers * row + x1 * layers
    ensures RowTo(width, layers, x1, w, row) == width * layers * row + (x1 + w) * layers
    ensures width * layers * row <= RowFrom(width, layers, x1, row)
    ensures RowFrom(width, layers, x1, row) <= RowTo(width, layers, x1, w, row) <= width * layers * (row + 1)
    ensures width * layers * (row + 1) <= layers * width * height
    ensures 0 <= RowFrom(width, layers, x1, row) && RowTo(width, layers, x1, w, row) <= layers * width * height
  {
    var wl := width * layers;
    RowProducts(layers, width, height, x1, w, row);
    WrapId(wl, 0x1_0000_0000);
    WrapId(wl * row, 0x1_0000_0000);
    WrapId(x1 * layers, 0x1_0000_0000);
    WrapId(x1 + w, 0x1_0000_0000);
    WrapId((x1 + w) * layers, 0x1_0000_0000);
    WrapId(wl * row + x1 * layers, 0x1_0000_0000);
    WrapId(wl * row + (x1 + w) * layers, 0x1_0000_0000);
  }

  /** The products `fill` computes for a row inside the grid, without wrap-around. */
  lemma RowProducts(layers: int, width: int, height: int, x1: int, w: int, row: int)
    requires 0 <= layers && 0 <= width && layers * width * height <= INT_MAX
    requires 0 <= x1 && 0 <= w && x1 + w <= width && 0 <= row < height
    ensures 0 <= width * layers <= width * layers * row + width * layers == width * layers * (row + 1)
    ensures width * layers * (row + 1) <= layers * width * height
    ensures 0 <= x1 * layers <= (x1 + w) * layers <= width * layers
  {
    var wl := width * layers;
    assert wl * height == layers * width * height;
    MulLeq(layers, 0, width);
    assert wl == layers * width;
    MulLeq(wl, 0, row);
    MulLeq(wl, row + 1, height);
    assert wl * (row + 1) == wl * row + wl;
    MulLeq(layers, 0, x1);
    MulLeq(layers, x1, x1 + w);
    MulLeq(layers, x1 + w, width);
  }

  /**
   * For a rectangle inside the grid, `fill` covers the cell `(layer, x, y)`
   * exactly when `x1 <= x < x1 + w` and `y1 <= y < y1 + h`, in every layer.
   */
  lemma FillCoversRectangle(layers: int32, width: int32, height: int32,
      x1: int, w: int, y1: int, h: int, layer: int, x: int, y: int)
    requires 0 <= layers && 0 <= width && 0 <= height && layers * width * height <= INT_MAX
    requires 0 <= x1 && 0 <= w && x1 + w <= width && 0 <= y1 && 0 <= h && y1 + h <= height
    requires 0 <= layer < layers && 0 <= x < width && 0 <= y < height
    ensures Covered(width, layers, x1, w, y1, y1 + h, layers * (width * y + x) + layer)
      <==> x1 <= x < x1 + w && y1 <= y < y1 + h
  {
    var i := layers * (width * y + x) + layer;
    if x1 <= x < x1 + w && y1 <= y < y1 + h {
      CellInRow(layers, width, height, x1, w, layer, x, y);
    }
    if Covered(width, layers, x1, w, y1, y1 + h, i) {
      var r :| y1 <= r < y1 + h && RowFrom(width, layers, x1, r) <= i < RowTo(width, layers, x1, w, r);
      RowHoldsCell(layers, width, height, x1, w, r, layer, x, y);
    }
  }

  /** Where a cell sits in its row: `wl * y + layers * x + layer` with `layers * x + layer < wl`. */
  lemma CellOffset(layers: int, width: int, layer: int, x: int, y: int)
    requires 0 <= layer < layers && 0 <= x < width
    ensures layers * (width * y + x) + layer == width * layers * y + (layers * x + layer)
    ensures 0 <= layers * x + layer < layers * (x + 1) <= width * layers
  {
    MulLeq(layers, 0, x);
    MulLeq(layers, x + 1, width);
    assert layers * (x + 1) == layers * x + layers;
  }

  lemma CellInRow(layers: int32, width: int32, height: int32, x1: int, w: int, layer: int, x: int, y: int)
    requires 0 <= layers && 0 <= width && 0 <= height && layers * width * height <= INT_MAX
    requires 0 <= x1 && 0 <= w && x1 + w <= width
    requires 0 <= layer < layers && x1 <= x < x1 + w && 0 <= y < height
    ensures RowFrom(width, layers, x1, y) <= layers * (width * y + x) + layer < RowTo(width, layers, x1, w, y)
  {
    RowBounds(layers, width, height, x1, w, y);
    CellInSpan(layers, width, x1, w, layer, x, y);
  }

  /** A cell with `x1 <= x < x1 + w` lies in the span of its row that starts at column `x1`. */
  lemma CellInSpan(layers: int, width: int, x1: int, w: int, layer: int, x: int, y: int)
    requires 0 <= layer < layers && x1 <= x < x1 + w && 0 <= x < width
    ensures width * layers * y + x1 * layers <= layers * (width * y + x) + layer
    ensures layers * (width * y + x) + layer < width * layers * y + (x1 + w) * layers
  {
    CellOffset(layers, width, layer, x, y);
    MulLeq(layers, x1, x);
    MulLeq(layers, x + 1, x1 + w);
  }

  lemma RowHoldsCell(layers: int32, width: int32, height: int32, x1: int, w: int, r: int, layer: int, x: int, y: int)
    requires 0 <= layers && 0 <= width && 0 <= height && layers * width * height <= INT_MAX
    requires 0 <= x1 && 0 <= w && x1 + w <= width && 0 <= r < height
    requires 0 <= layer < layers && 0 <= x < width && 0 <= y < height
    requires RowFrom(width, layers, x1, r) <= layers * (width * y + x) + layer < RowTo(width, layers, x1, w, r)
    ensures r == y && x1 <= x < x1 + w
  {
    RowBounds(layers, width, height, x1, w, r);
    SpanHoldsCell(layers, width, x1, w, r, layer, x, y);
  }

  /** A cell in the span of row `r` from column `x1` to `x1 + w` is in row `r`, between those columns. */
  lemma SpanHoldsCell(layers: int, width: int, x1: int, w: int, r: int, layer: int, x: int, y: int)
    requires 0 <= x1 && 0 <= w && x1 + w <= width
    requires 0 <= layer < layers && 0 <= x < width
    requires width * layers * r + x1 * layers <= layers * (width * y + x) + layer
    requires layers * (width * y + x) + layer < width * layers * r + (x1 + w) * layers
    ensures r == y && x1 <= x < x1 + w
  {
    var wl := width * layers;
    var c := layers * x + layer;
    var a := x1 * layers;
    var b := (x1 + w) * layers;
    CellOffset(layers, width, layer, x, y);
    MulLeq(layers, 0, x1);
    MulLeq(layers, x1 + w, width);
    assert a == layers * x1 && b == layers * (x1 + w);
    assert 0 <= a && b <= wl;
    assert wl * r + a <= wl * y + c < wl * r + b;
    assert wl * (y + 1) == wl * y + wl && wl * (r + 1) == wl * r + wl;
    assert wl > 0 by {
      MulLess(layers, 0, width);
    }
    MulLess(wl, r, y + 1);
    MulLess(wl, y, r + 1);
    assert layers * (x + 1) == layers * x + layers;
    MulLess(layers, x1, x + 1);
    MulLess(layers, x, x1 + w);
  }

  /** Inside the grid every row of the rectangle fits the array. */
  lemma FillRowsFit(layers: int32, width: int32, height: int32, x1: int, w: int, y1: int, h: int)
    requires 0 <= layers && 0 <= width && 0 <= height && layers * width * height <= INT_MAX
    requires 0 <= x1 && 0 <= w && x1 + w <= width && 0 <= y1 && 0 <= h && y1 + h <= height
    ensures ToInt32(y1 + h) == y1 + h
    ensures forall row | y1 <= row < y1 + h :: RowFits(layers * width * height, width, layers, x1, w, row)
  {
    WrapId(y1 + h, 0x1_0000_0000);
    forall row | y1 <= row < y1 + h
      ensures RowFits(layers * width * height, width, layers, x1, w, row)
    {
      RowBounds(layers, width, height, x1, w, row);
    }
  }

  // The serialized form.

  /** The dimensions and cells a grid is written as. */
  datatype GridData = GridData(width: int32, height: int32, layers: int32, cells: seq<Option<Block>>)

  /** Dimensions the class invariant admits: one cell per layer, column and row. */
  predicate WellFormedDims(g: GridData)
  {
    0 <= g.layers && 0 <= g.width && 0 <= g.height && |g.cells| == g.layers * g.width * g.height <= INT_MAX
  }

  /** Dimensions a grid can have, with one cell per layer, column and row, each writable. */
  predicate WellFormed(g: GridData)
  {
    0 <= g.layers && 0 <= g.width && 0 <= g.height && g.layers * g.width * g.height <= INT_MAX
    && |g.cells| == g.layers * g.width * g.height
    && forall k | 0 <= k < |g.cells| :: g.cells[k].Some? ==> |g.cells[k].value.bytes| <= INT_MAX - 6
  }

  /** `getBytes`: width, height and layers as ints, then every cell as `serialize` writes it, in array order. */
  function Encoding(lookup: map<Serializer.ClassName, short>, g: GridData): (r: Result<seq<byte>>)
    requires forall k | 0 <= k < |g.cells| :: g.cells[k].Some? ==> |g.cells[k].value.bytes| <= INT_MAX
    ensures r.Ok? ==> |r.value| >= 12
  {
    match Serializer.EncodeAll(lookup, g.cells)
    case Err(e) => Err(e)
    case Ok(chunks) =>
      Ok(Bytes.IntBytes(g.width) + Bytes.IntBytes(g.height) + Bytes.IntBytes(g.layers) + Bytes.Flatten(chunks))
  }

  /** The length of `new Block[layers * width * height]`: the product in int arithmetic. */
  function CellCount(width: int32, height: int32, layers: int32): int32
  {
    ToInt32(ToInt32(layers * width) * height)
  }

  /**
   * The reader constructor at `index`: three ints, then as many objects as
   * the array of `layers * width * height` cells has, the product taken in
   * int arithmetic. Yields the grid's data and the index after it. The
   * dimensions are kept as read, even when they do not multiply to the
   * number of cells.
   */
  function Decoding(lookup: map<short, Serializer.Builder>, bytes: seq<byte>, index: int)
    : (r: Result<(GridData, int)>)
    ensures r.Ok? ==> (DataReader.Available(|bytes|, index, 12)
      && r.value.0.width == Bytes.GetInteger(bytes, index) && r.value.0.height == Bytes.GetInteger(bytes, index + 4)
      && r.value.0.layers == Bytes.GetInteger(bytes, index + 8)
      && |r.value.0.cells| == CellCount(r.value.0.width, r.value.0.height, r.value.0.layers))
    ensures !DataReader.Available(|bytes|, index, 12) ==> r == Err(IndexOutOfBounds)
  {
    if !DataReader.Available(|bytes|, index, 12) then Err(IndexOutOfBounds)
    else DecodeCells(lookup, bytes, index + 12,
      Bytes.GetInteger(bytes, index), Bytes.GetInteger(bytes, index + 4), Bytes.GetInteger(bytes, index + 8))
  }

  /**
   * The cells after a header with the given dimensions, read from `index`
   * on: a negative cell count is `NegativeArraySizeException`.
   */
  function DecodeCells(lookup: map<short, Serializer.Builder>, bytes: seq<byte>, index: int,
      width: int32, height: int32, layers: int32): (r: Result<(GridData, int)>)
    ensures CellCount(width, height, layers) < 0 ==> r == Err(NegativeArraySize)
    ensures r.Ok? ==> (r.value.0.width == width && r.value.0.height == height && r.value.0.layers == layers
      && |r.value.0.cells| == CellCount(width, height, layers))
  {
    var count := CellCount(width, height, layers);
    if count < 0 then Err(NegativeArraySize)
    else match Serializer.ReadObjects(lookup, bytes, index, count)
      case Err(e) => Err(e)
      case Ok(read) => Ok((GridData(width, height, layers, read.0), read.1))
  }

  /**
   * Dimensions that do not describe the cells are read as they are: a
   * width and height of -1 with one layer give one cell, and 65536 columns
   * by 65536 rows give none, their product wrapping to 0.
   */
  lemma DecodeCellsWraps(lookup: map<short, Serializer.Builder>, bytes: seq<byte>, index: int)
    requires 0 <= index <= |bytes|
    ensures DecodeCells(lookup, bytes, index, 65536, 65536, 1) == Ok((GridData(65536, 65536, 1, []), index))
    ensures DecodeCells(lookup, bytes, index, -1, -1, 1).Ok? ==> |DecodeCells(lookup, bytes, index, -1, -1, 1).value.0.cells| == 1
  {
    WrapShift(0, 1, 0x1_0000_0000);
    assert CellCount(65536, 65536, 1) == 0;
    assert CellCount(-1, -1, 1) == 1;
  }

  /** The three header ints read back. */
  lemma HeaderRoundTrip(prefix: seq<byte>, width: int32, height: int32, layers: int32, header: seq<byte>,
      body: seq<byte>, rest: seq<byte>)
    requires header == Bytes.IntBytes(width) + Bytes.IntBytes(height) + Bytes.IntBytes(layers)
    ensures DataReader.Available(|prefix + header + body + rest|, |prefix|, 12)
      && Bytes.GetInteger(prefix + header + body + rest, |prefix|) == width
      && Bytes.GetInteger(prefix + header + body + rest, |prefix| + 4) == height
      && Bytes.GetInteger(prefix + header + body + rest, |prefix| + 8) == layers
  {
    var bytes := prefix + header + body + rest;
    var p := |prefix|;
    assert bytes[p..p + 4] == Bytes.IntBytes(width);
    assert bytes[p + 4..p + 8] == Bytes.IntBytes(height);
    assert bytes[p + 8..p + 12] == Bytes.IntBytes(layers);
    Serializer.IntDecoded(width);
    Serializer.IntDecoded(height);
    Serializer.IntDecoded(layers);
  }

  /**
   * A grid whose blocks are all readable is read back by the reader
   * constructor from what `getBytes` wrote, wherever it was written to.
   */
  lemma GridRoundTrip(writeLookup: map<Serializer.ClassName, short>, readLookup: map<short, Serializer.Builder>,
      g: GridData, prefix: seq<byte>, written: seq<byte>, rest: seq<byte>)
    requires WellFormed(g)
    requires forall k | 0 <= k < |g.cells| :: Serializer.Readable(writeLookup, readLookup, g.cells[k])
    requires Encoding(writeLookup, g) == Ok(written)
    ensures Decoding(readLookup, prefix + written + rest, |prefix|) == Ok((g, |prefix| + |written|))
  {
    var header := Bytes.IntBytes(g.width) + Bytes.IntBytes(g.height) + Bytes.IntBytes(g.layers);
    Serializer.ReadObjectsRoundTrip(writeLookup, readLookup, g.cells, prefix + header, rest);
    var body := Bytes.Flatten(Serializer.EncodeAll(writeLookup, g.cells).value);
    GridFromCells(writeLookup, readLookup, g, prefix, header, body, written, rest);
  }

  /** The encoding is the header and the encoded cells, so reading the cells back reads the grid back. */
  lemma GridFromCells(writeLookup: map<Serializer.ClassName, short>, readLookup: map<short, Serializer.Builder>,
      g: GridData, prefix: seq<byte>, header: seq<byte>, body: seq<byte>, written: seq<byte>, rest: seq<byte>)
    requires WellFormed(g)
    requires Encoding(writeLookup, g) == Ok(written)
    requires header == Bytes.IntBytes(g.width) + Bytes.IntBytes(g.height) + Bytes.IntBytes(g.layers)
    requires Serializer.EncodeAll(writeLookup, g.cells).Ok?
    requires body == Bytes.Flatten(Serializer.EncodeAll(writeLookup, g.cells).value)
    requires Serializer.ReadObjects(readLookup, prefix + header + body + rest, |prefix + header|, |g.cells|)
      == Ok((g.cells, |prefix + header| + |body|))
    ensures Decoding(readLookup, prefix + written + rest, |prefix|) == Ok((g, |prefix| + |written|))
  {
    assert written == header + body;
    HeaderAndCells(readLookup, g, prefix, header, body, written, rest);
  }

  /** A grid whose blocks are all readable can be written: every block's class is registered. */
  lemma GridEncodes(writeLookup: map<Serializer.ClassName, short>, readLookup: map<short, Serializer.Builder>, g: GridData)
    requires WellFormed(g)
    requires forall k | 0 <= k < |g.cells| :: Serializer.Readable(writeLookup, readLookup, g.cells[k])
    ensures Encoding(writeLookup, g).Ok?
  {
    Serializer.ReadObjectsRoundTrip(writeLookup, readLookup, g.cells, [], []);
  }

  /** The header read back, then the cells that follow it. */
  lemma HeaderAndCells(lookup: map<short, Serializer.Builder>, g: GridData, prefix: seq<byte>,
      header: seq<byte>, body: seq<byte>, written: seq<byte>, rest: seq<byte>)
    requires 0 <= g.layers && 0 <= g.width && 0 <= g.height && |g.cells| == g.layers * g.width * g.height <= INT_MAX
    requires header == Bytes.IntBytes(g.width) + Bytes.IntBytes(g.height) + Bytes.IntBytes(g.layers)
    requires written == header + body
    requires Serializer.ReadObjects(lookup, prefix + header + body + rest, |prefix + header|, |g.cells|)
      == Ok((g.cells, |prefix + header| + |body|))
    ensures Decoding(lookup, prefix + written + rest, |prefix|) == Ok((g, |prefix| + |written|))
  {
    HeaderRoundTrip(prefix, g.width, g.height, g.layers, header, body, rest);
    CellsAfterHeader(lookup, g, prefix, header, body, written, rest);
  }

  /** A header that reads back the grid's dimensions, then its cells. */
  lemma CellsAfterHeader(lookup: map<short, Serializer.Builder>, g: GridData, prefix: seq<byte>,
      header: seq<byte>, body: seq<byte>, written: seq<byte>, rest: seq<byte>)
    requires 0 <= g.layers && 0 <= g.width && 0 <= g.height && |g.cells| == g.layers * g.width * g.height <= INT_MAX
    requires |header| == 12 && written == header + body
    requires DataReader.Available(|prefix + header + body + rest|, |prefix|, 12)
      && Bytes.GetInteger(prefix + header + body + rest, |prefix|) == g.width
      && Bytes.GetInteger(prefix + header + body + rest, |prefix| + 4) == g.height
      && Bytes.GetInteger(prefix + header + body + rest, |prefix| + 8) == g.layers
    requires Serializer.ReadObjects(lookup, prefix + header + body + rest, |prefix + header|, |g.cells|)
      == Ok((g.cells, |prefix + header| + |body|))
    ensures Decoding(lookup, prefix + written + rest, |prefix|) == Ok((g, |prefix| + |written|))
  {
    var bytes := prefix + header + body + rest;
    Layout(prefix, header, body, rest, written, bytes);
    DecodedAt(lookup, g, bytes, |prefix|, |prefix + header|, |prefix + header| + |body|);
  }

  /** Where the header and the cells of what `getBytes` wrote lie in the bytes around it. */
  lemma Layout(prefix: seq<byte>, header: seq<byte>, body: seq<byte>, rest: seq<byte>, written: seq<byte>, bytes: seq<byte>)
    requires |header| == 12 && written == header + body && bytes == prefix + header + body + rest
    ensures bytes == prefix + written + rest == prefix + (header + (body + rest))
    ensures |prefix + header| == |prefix| + 12 && |prefix + header| + |body| == |prefix| + |written|
  {
  }

  /** A header holding the grid's dimensions, then its cells, decodes to the grid. */
  lemma DecodedAt(lookup: map<short, Serializer.Builder>, g: GridData, bytes: seq<byte>, at: int, start: int, end: int)
    requires 0 <= g.layers && 0 <= g.width && 0 <= g.height && |g.cells| == g.layers * g.width * g.height <= INT_MAX
    requires DataReader.Available(|bytes|, at, 12) && start == at + 12
    requires Bytes.GetInteger(bytes, at) == g.width && Bytes.GetInteger(bytes, at + 4) == g.height
      && Bytes.GetInteger(bytes, at + 8) == g.layers
    requires Serializer.ReadObjects(lookup, bytes, start, |g.cells|) == Ok((g.cells, end))
    ensures Decoding(lookup, bytes, at) == Ok((g, end))
  {
    DecodingHeader(lookup, bytes, at, g.width, g.height, g.layers, |g.cells|);
  }

  /** A header whose dimensions describe a grid of `count` cells leaves `count` objects to read. */
  lemma DecodingHeader(lookup: map<short, Serializer.Builder>, bytes: seq<byte>, index: int,
      width: int32, height: int32, layers: int32, count: nat)
    requires DataReader.Available(|bytes|, index, 12)
    requires Bytes.GetInteger(bytes, index) == width && Bytes.GetInteger(bytes, index + 4) == height
      && Bytes.GetInteger(bytes, index + 8) == layers
    requires 0 <= layers && 0 <= width && 0 <= height && count == layers * width * height <= INT_MAX
    ensures Decoding(lookup, bytes, index)
      == match Serializer.ReadObjects(lookup, bytes, index + 12, count)
        case Err(e) => Err(e)
        case Ok(read) => Ok((GridData(width, height, layers, read.0), read.1))
  {
    assert Decoding(lookup, bytes, index) == DecodeCells(lookup, bytes, index + 12, width, height, layers);
    DecodeCellsCount(lookup, bytes, index + 12, width, height, layers, count);
  }

  lemma DecodeCellsCount(lookup: map<short, Serializer.Builder>, bytes: seq<byte>, index: int,
      width: int32, height: int32, layers: int32, count: nat)
    requires 0 <= layers && 0 <= width && 0 <= height && count == layers * width * height <= INT_MAX
    ensures DecodeCells(lookup, bytes, index, width, height, layers)
      == match Serializer.ReadObjects(lookup, bytes, index, count)
        case Err(e) => Err(e)
        case Ok(read) => Ok((GridData(width, height, layers, read.0), read.1))
  {
    ProductNoWrap(layers, width, height);
    assert ToInt32(ToInt32(layers * width) * height) == count;
  }


  /** The four writes of `getBytes` on the zero-padded cells produce the header. */
  lemma HeaderFilled(width: int32, height: int32, layers: int32, body: seq<byte>)
    ensures Bytes.Splice(Bytes.Splice(Bytes.Splice(Zeros(12) + body, 0, Bytes.IntBytes(width)),
        4, Bytes.IntBytes(height)), 8, Bytes.IntBytes(layers))
      == Bytes.IntBytes(width) + Bytes.IntBytes(height) + Bytes.IntBytes(layers) + body
  {
    var s0 := Zeros(12) + body;
    Bytes.SpliceAppend(s0, 0, Bytes.IntBytes(width), Bytes.IntBytes(height));
    Bytes.SpliceAppend(s0, 0, Bytes.IntBytes(width) + Bytes.IntBytes(height), Bytes.IntBytes(layers));
    Bytes.OverZeros(Bytes.IntBytes(width) + Bytes.IntBytes(height) + Bytes.IntBytes(layers), body);
  }

  class BlockGrid {
    const blocks: array<Option<Block>>
    const width: int32
    const height: int32
    const layers: int32

    /** One array element per layer, column and row. */
    predicate Valid()
    {
      0 <= layers && 0 <= width && 0 <= height && layers * width * height <= INT_MAX
      && blocks.Length == layers * width * height
    }

    /** `new BlockGrid(layers, width, height)`: every cell empty. */
    constructor(layers: int32, width: int32, height: int32)
      requires 0 <= layers && 0 <= width && 0 <= height && layers * width * height <= INT_MAX
      ensures Valid() && fresh(blocks)
      ensures this.layers == layers && this.width == width && this.height == height
      ensures forall i | 0 <= i < blocks.Length :: blocks[i].None?
    {
      ProductNonNegative(layers, width, height);
      blocks := new Option<Block>[layers as int * width * height](_ => None);
      this.layers := layers;
      this.width := width;
      this.height := height;
    }

    /** The reader constructor's fields, once the cells are read into `cells`. */
    constructor Of(layers: int32, width: int32, height: int32, cells: array<Option<Block>>)
      requires 0 <= layers && 0 <= width && 0 <= height && cells.Length == layers * width * height <= INT_MAX
      ensures Valid() && blocks == cells
      ensures this.layers == layers && this.width == width && this.height == height
    {
      blocks := cells;
      this.layers := layers;
      this.width := width;
      this.height := height;
    }

    /** The grid's dimensions and cells, as `getBytes` writes them. */
    function Data(): GridData
      reads blocks
    {
      GridData(width, height, layers, blocks[..])
    }

    /** `isValid(x, y)`. */
    predicate IsValidCell(x: int, y: int)
    {
      0 <= x < width && 0 <= y < height
    }

    /** `isValid(layer, x, y)`. */
    predicate IsValid(layer: int, x: int, y: int)
    {
      0 <= layer < layers && IsValidCell(x, y)
    }

    /** `firstLayerIndex`: the index of layer 0 of a cell. */
    function FirstLayerIndex(x: int, y: int): int
    {
      layers * (width * y + x)
    }

    /** `compute`: the array index of a cell; every valid coordinate has one in the array. */
    function Compute(layer: int, x: int, y: int): (r: int)
      ensures Valid() && IsValid(layer, x, y) ==> 0 <= r < blocks.Length
    {
      if Valid() && IsValid(layer, x, y) then
        ComputeBounds(layers, width, height, layer, x, y);
        FirstLayerIndex(x, y) + layer
      else
        FirstLayerIndex(x, y) + layer
    }

    /** The block at a valid coordinate. */
    function Cell(layer: int, x: int, y: int): Option<Block>
      requires Valid() && IsValid(layer, x, y)
      reads blocks
    {
      blocks[Compute(layer, x, y)]
    }

    /** `get`: the block at a coordinate; an invalid one is an `IllegalArgumentException`. */
    function Get(layer: int, x: int, y: int): (r: Result<Option<Block>>)
      requires Valid()
      reads blocks
      ensures r.Ok? <==> IsValid(layer, x, y)
      ensures r.Ok? ==> r.value == Cell(layer, x, y)
      ensures r.Err? ==> r.error == IllegalArgument
    {
      if !IsValid(layer, x, y) then Err(IllegalArgument) else Ok(Cell(layer, x, y))
    }

    /** `isBlock(layer, x, y)`: `get` is not null. */
    function IsBlock(layer: int, x: int, y: int): (r: Result<bool>)
      requires Valid()
      reads blocks
      ensures r.Ok? <==> IsValid(layer, x, y)
      ensures r.Ok? ==> (r.value <==> Cell(layer, x, y).Some?)
      ensures r.Err? ==> r.error == IllegalArgument
    {
      match Get(layer, x, y)
      case Err(e) => Err(e)
      case Ok(b) => Ok(b.Some?)
    }

    /** Some layer from `first` to `last` holds a block at `(x, y)`. */
    predicate AnyBlock(first: int, last: int, x: int, y: int)
      requires Valid() && IsValidCell(x, y)
      reads blocks
    {
      exists layer | 0 <= first <= layer <= last < layers :: Cell(layer, x, y).Some?
    }

    /**
     * `set`: stores the block and returns the one it replaced; no other cell
     * changes. An invalid coordinate changes nothing.
     */
    method Set(layer: int, x: int, y: int, block: Option<Block>) returns (r: Result<Option<Block>>)
      requires Valid()
      modifies blocks
      ensures !IsValid(layer, x, y) ==> r == Err(IllegalArgument) && blocks[..] == old(blocks[..])
      ensures IsValid(layer, x, y) ==> (r == Ok(old(Cell(layer, x, y)))
        && blocks[..] == old(blocks[..])[Compute(layer, x, y) := block])
      ensures IsValid(layer, x, y) ==> forall l, i, j | IsValid(l, i, j) ::
        Cell(l, i, j) == if l == layer && i == x && j == y then block else old(Cell(l, i, j))
    {
      if !IsValid(layer, x, y) {
        return Err(IllegalArgument);
      }
      var index := Compute(layer, x, y);
      var previous := blocks[index];
      blocks[index] := block;
      forall l, i, j | IsValid(l, i, j) && Compute(l, i, j) == index
        ensures l == layer && i == x && j == y
      {
        ComputeInjective(layers, width, l, i, j, layer, x, y);
      }
      return Ok(previous);
    }

    /**
     * `place`: into an empty cell only. A null block is refused with a
     * `NullPointerException` before anything changes.
     */
    method Place(layer: int, x: int, y: int, block: Option<Block>) returns (r: Result<bool>)
      requires Valid()
      modifies blocks
      ensures !IsValid(layer, x, y) ==> r == Err(IllegalArgument) && blocks[..] == old(blocks[..])
      ensures IsValid(layer, x, y) && old(Cell(layer, x, y)).Some? ==> r == Ok(false) && blocks[..] == old(blocks[..])
      ensures IsValid(layer, x, y) && old(Cell(layer, x, y)).None? && block.None?
        ==> r == Err(NullPointer) && blocks[..] == old(blocks[..])
      ensures IsValid(layer, x, y) && old(Cell(layer, x, y)).None? && block.Some?
        ==> r == Ok(true) && blocks[..] == old(blocks[..])[Compute(layer, x, y) := block]
    {
      var occupied := IsBlock(layer, x, y);
      if occupied.Err? {
        return Err(occupied.error);
      }
      if occupied.value {
        return Ok(false);
      }
      if block.None? {
        return Err(NullPointer);
      }
      var _ := Set(layer, x, y, block);
      return Ok(true);
    }

    /** `isBlock(x, y)`: some layer of the cell holds a block. */
    method IsBlockAt(x: int, y: int) returns (r: Result<bool>)
      requires Valid()
      ensures !IsValid(0, x, y) ==> r == Err(IllegalArgument)
      ensures IsValid(0, x, y) ==> r == Ok(AnyBlock(0, layers - 1, x, y))
    {
      if !IsValid(0, x, y) {
        return Err(IllegalArgument);
      }
      var start := FirstLayerIndex(x, y);
      for layer := 0 to layers
        invariant !AnyBlock(0, layer - 1, x, y)
      {
          assert Compute(layer, x, y) == start + layer;
        if blocks[start + layer].Some? {
          assert Cell(layer, x, y).Some?;
          return Ok(true);
        }
      }
      return Ok(false);
    }

    /**
     * `isBlockInLayers(first, last, x, y)`: some layer from `first` to `last`
     * holds a block. The first layer and the cell are checked, then the last
     * layer; a `first` beyond `last` finds nothing.
     */
    method IsBlockInLayers(first: int, last: int, x: int, y: int) returns (r: Result<bool>)
      requires Valid()
      ensures !IsValid(first, x, y) || !(0 <= last < layers) ==> r == Err(IllegalArgument)
      ensures IsValid(first, x, y) && 0 <= last < layers ==> r == Ok(AnyBlock(first, last, x, y))
    {
      if !IsValid(first, x, y) {
        return Err(IllegalArgument);
      }
      var base := FirstLayerIndex(x, y);
      if last >= layers || last < 0 {
        return Err(IllegalArgument);
      }
      var end := base + last;
      var index := base + first;
      while index <= end
        invariant base + first <= index <= end + 1 || (index == base + first && first > last)
        invariant !AnyBlock(first, index - base - 1, x, y)
      {
        assert Compute(index - base, x, y) == index;
        if blocks[index].Some? {
          assert Cell(index - base, x, y).Some?;
          return Ok(true);
        }
        index := index + 1;
      }
      return Ok(false);
    }

    /**
     * `getTopBlockLayer`: the lowest layer holding a block at `(x, y)`, or
     * `INVALID_LAYER` when all are empty.
     */
    method GetTopBlockLayer(x: int, y: int) returns (r: Result<int>)
      requires Valid()
      ensures !IsValid(0, x, y) ==> r == Err(IllegalArgument)
      ensures IsValid(0, x, y) ==> (r.Ok? && (
        (r.value == INVALID_LAYER && !AnyBlock(0, layers - 1, x, y))
        || (0 <= r.value < layers && Cell(r.value, x, y).Some? && !AnyBlock(0, r.value - 1, x, y))))
    {
      if !IsValid(0, x, y) {
        return Err(IllegalArgument);
      }
      var start := FirstLayerIndex(x, y);
      var end := start + layers;
      var index := start;
      while index < end
        invariant start <= index <= end
        invariant !AnyBlock(0, index - start - 1, x, y)
      {
        assert Compute(index - start, x, y) == index;
        if blocks[index].Some? {
          assert Cell(index - start, x, y).Some?;
          return Ok(index - start);
        }
        index := index + 1;
      }
      return Ok(INVALID_LAYER);
    }

    /**
     * `isSolidBlockAdjacent`: a block in the same layer in one of the four
     * cells next to `(x, y)` that lie inside the grid.
     */
    function IsSolidBlockAdjacent(layer: int, x: int, y: int): (r: bool)
      requires Valid()
      reads blocks
      ensures r <==> exists i, j | IsValid(layer, i, j) && Adjacent(x, y, i, j) :: Cell(layer, i, j).Some?
    {
      assert Adjacent(x, y, x + 1, y) && Adjacent(x, y, x - 1, y) && Adjacent(x, y, x, y + 1) && Adjacent(x, y, x, y - 1);
      (IsValid(layer, x + 1, y) && Cell(layer, x + 1, y).Some?)
      || (IsValid(layer, x - 1, y) && Cell(layer, x - 1, y).Some?)
      || (IsValid(layer, x, y + 1) && Cell(layer, x, y + 1).Some?)
      || (IsValid(layer, x, y - 1) && Cell(layer, x, y - 1).Some?)
    }

    /**
     * `fill`: every row from `y1` to `y1 + h - 1` gets the block in the array
     * range from column `x1` to `x1 + w - 1`, all layers, with no check of
     * the coordinates beyond what `Arrays.fill` does. The first row it
     * refuses ends the fill with that row's exception; earlier rows stay filled.
     */
    method Fill(block: Option<Block>, x1: int32, y1: int32, w: int32, h: int32) returns (r: Result<()>)
      requires Valid()
      modifies blocks
      ensures (r, blocks[..]) == FillRows(old(blocks[..]), block, width, layers, x1, w, y1, ToInt32(y1 as int + h))
    {
      var y2 := ToInt32(y1 as int + h);
      var columnStart := ToInt32(x1 as int * layers);
      var columnEnd := ToInt32(ToInt32(x1 as int + w) as int * layers);
      var row: int := y1;
      while row < y2
        invariant FillRows(blocks[..], block, width, layers, x1, w, row, y2)
          == FillRows(old(blocks[..]), block, width, layers, x1, w, y1, y2)
      {
        var rowStart := ToInt32(ToInt32(width as int * layers) as int * row);
        var from := ToInt32(rowStart as int + columnStart);
        var to := ToInt32(rowStart as int + columnEnd);
        assert from == RowFrom(width, layers, x1, row) && to == RowTo(width, layers, x1, w, row);
        if from > to {
          return Err(IllegalArgument);
        }
        if from < 0 || to > blocks.Length {
          return Err(IndexOutOfBounds);
        }
        FillRange(blocks, from, to, block);
        row := row + 1;
      }
      return Ok(());
    }

    /** `getBytes`: every cell serialized in array order, after the three dimensions. */
    method GetBytes(ser: Serializer.SerializerReaderWriter) returns (r: Result<seq<byte>>)
      requires Valid()
      requires forall i | 0 <= i < blocks.Length :: blocks[i].Some? ==> |blocks[i].value.bytes| <= INT_MAX - 6
      ensures r == Encoding(ser.serializeLookup, Data())
    {
      var cells := blocks[..];
      var blockData: seq<seq<byte>> := [];
      for i := 0 to blocks.Length
        invariant Serializer.EncodeAll(ser.serializeLookup, cells[..i]) == Ok(blockData)
      {
        Serializer.EncodeAllNext(ser.serializeLookup, cells, i);
        var data := ser.Serialize(blocks[i]);
        if data.Err? {
          Serializer.EncodeAllFails(ser.serializeLookup, cells, i + 1);
          return Err(data.error);
        }
        blockData := blockData + [data.value];
      }
      assert cells[..blocks.Length] == cells;
      var concatenated := Bytes.ConcatenateAt(12, blockData);
      var data := concatenated.value;
      Bytes.PutInteger(data, 0, width);
      Bytes.PutInteger(data, 4, height);
      Bytes.PutInteger(data, 8, layers);
      HeaderFilled(width, height, layers, Bytes.Flatten(blockData));
      return Ok(data[..]);
    }

    /**
     * The reader constructor: the dimensions, then one object per cell, read
     * by `ser` from `reader`. Dimensions that do not multiply to the number
     * of cells read cannot make a grid the class invariant admits, and are
     * refused with `IllegalArgumentException` once the cells are read.
     */
    static method Read(ser: Serializer.SerializerReaderWriter, reader: DataReader.ByteArrayDataReader)
      returns (r: Result<BlockGrid>)
      modifies reader
      ensures var d := Decoding(ser.deserializeLookup, reader.bytes, old(reader.index));
        (d.Err? ==> r == Err(d.error))
        && (d.Ok? && WellFormedDims(d.value.0) ==> (r.Ok? && fresh(r.value.blocks) && r.value.Valid()
          && r.value.Data() == d.value.0 && reader.index == d.value.1))
        && (d.Ok? && !WellFormedDims(d.value.0) ==> r == Err(IllegalArgument))
    {
      var start := reader.index;
      var width := reader.ReadInteger();
      if width.Err? {
        return Err(width.error);
      }
      var height := reader.ReadInteger();
      if height.Err? {
        return Err(height.error);
      }
      var layers := reader.ReadInteger();
      if layers.Err? {
        return Err(layers.error);
      }
      var count := CellCount(width.value, height.value, layers.value);
      if count < 0 {
        return Err(NegativeArraySize);
      }
      var cells := new Option<Block>[count](_ => None);
      var read := ReadInto(ser, reader, cells);
      if read.Err? {
        return Err(read.error);
      }
      if !(0 <= layers.value && 0 <= width.value && 0 <= height.value
        && count as int == layers.value as int * width.value * height.value) {
        return Err(IllegalArgument);
      }
      var grid := new BlockGrid.Of(layers.value, width.value, height.value, cells);
      return Ok(grid);
    }
  }

  /** The reader constructor's loop: one object per array element, read in order. */
  method ReadInto(ser: Serializer.SerializerReaderWriter, reader: DataReader.ByteArrayDataReader,
      a: array<Option<Block>>) returns (r: Result<()>)
    modifies reader, a
    ensures var d := Serializer.ReadObjects(ser.deserializeLookup, reader.bytes, old(reader.index), a.Length);
      (r.Ok? <==> d.Ok?) && (r.Err? ==> r.error == d.error)
      && (r.Ok? ==> a[..] == d.value.0 && reader.index == d.value.1)
  {
    var start := reader.index;
    var lookup := ser.deserializeLookup;
    for i := 0 to a.Length
      invariant Serializer.ReadObjects(lookup, reader.bytes, start, i) == Ok((a[..i], reader.index))
    {
      Serializer.ReadObjectsNext(lookup, reader.bytes, start, i);
      var obj := ser.ReadObject(reader);
      if obj.Err? {
        Serializer.ReadAllFails(Serializer.Reader(lookup), reader.bytes, start, i + 1, a.Length);
        return Err(obj.error);
      }
      a[i] := obj.value;
      assert a[..i + 1] == a[..i] + [obj.value];
    }
    assert a[..a.Length] == a[..];
    return Ok(());
  }

  /** `(i, j)` is one step left, right, up or down from `(x, y)`. */
  predicate Adjacent(x: int, y: int, i: int, j: int)
  {
    Abs(i - x) + Abs(j - y) == 1
  }

  /** `Arrays.fill(a, from, to, block)` on a range it accepts. */
  method FillRange(a: array<Option<Block>>, from: int, to: int, block: Option<Block>)
    requires 0 <= from <= to <= a.Length
    modifies a
    ensures a[..] == FillSeq(old(a[..]), from, to, block)
  {
    for i := from to to
      invariant forall k | 0 <= k < a.Length :: a[k] == if from <= k < i then block else old(a[k])
    {
      a[i] := block;
    }
  }
}
