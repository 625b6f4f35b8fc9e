/**
 The three image-adding tiling kernels: stepping by blocks, stepping through 16x16 blocks with two
 inner loops, and stepping through single pixels.  Each is proved to make a given sequence of
 stores; the laws say when these sequences are the same and that no pixel is stored twice.
 */
module Tiling {
  import opened Division
  import opened Sequences
  import opened Values

  const INT16_MAX: int := 32767
  const BLOCK: nat := 16

  // Column and row of a pixel.
  type Pixel = (nat, nat)

  // Sum of two 8-bit pixels in a 16-bit unsigned variable, clamped: the clamp never fires.
  function Added(a: Byte, b: Byte): (r: int)
    ensures r == a + b < INT16_MAX
  {
    var pixel := (a + b) % 0x1_0000;
    if pixel > INT16_MAX then INT16_MAX else pixel
  }

  class Tile<T> {
    const width: nat
    const height: nat
    const blockWidth: nat
    const blockHeight: nat
    // Rows of pixels; the tile may lie in a larger memory.
    const memory: array2<T>
    // The pixels stored so far.
    ghost var writes: seq<Pixel>

    constructor (width: nat, height: nat, blockWidth: nat, blockHeight: nat, memory: array2<T>)
      ensures this.width == width && this.height == height
      ensures this.blockWidth == blockWidth && this.blockHeight == blockHeight
      ensures this.memory == memory && writes == []
    {
      this.width, this.height := width, height;
      this.blockWidth, this.blockHeight := blockWidth, blockHeight;
      this.memory, this.writes := memory, [];
    }

    ghost predicate Holds(columns: nat, rows: nat) {
      columns <= memory.Length1 && rows <= memory.Length0
    }

    ghost function View(): (v: map<Pixel, T>)
      reads memory
    {
      map x: nat, y: nat | x < memory.Length1 && y < memory.Length0 :: (x, y) := memory[y, x]
    }

    method Put(x: nat, y: nat, value: T)
      requires Holds(x + 1, y + 1)
      modifies `writes, memory
      ensures writes == old(writes) + [(x, y)]
      ensures View() == old(View())[(x, y) := value]
    {
      memory[y, x] := value;
      writes := writes + [(x, y)];
    }
  }

  // ---------------------------------------------------------------- sequences of stores

  // Row y up to column `columns`, every `step` columns.
  ghost function Row(columns: nat, y: nat, step: nat): seq<Pixel>
    requires step > 0
  {
    if columns == 0 then []
    else Row(columns - 1, y, step) + if (columns - 1) % step == 0 then [(columns - 1, y)] else []
  }

  // Row by row, every `stepY` rows.
  ghost function Grid(columns: nat, rows: nat, stepX: nat, stepY: nat): seq<Pixel>
    requires stepX > 0 && stepY > 0
  {
    if rows == 0 then []
    else Grid(columns, rows - 1, stepX, stepY) + if (rows - 1) % stepY == 0 then Row(columns, rows - 1, stepX) else []
  }

  // The pixels after storing sums at the given places.
  ghost function Summed(before: map<Pixel, int>, a: map<Pixel, Byte>, b: map<Pixel, Byte>,
                        at: seq<Pixel>): map<Pixel, int>
  {
    map p | p in before :: if p in at && p in a && p in b then Added(a[p], b[p]) else before[p]
  }

  // The tile has stored sums at `at`, in this order, since it was as given.
  ghost predicate Stands(in0: Tile<Byte>, in1: Tile<Byte>, out: Tile<int>,
                         before: map<Pixel, int>, w: seq<Pixel>, at: seq<Pixel>)
    reads out, out.memory, in0.memory, in1.memory
  {
    && out.writes == w + at
    && out.View() == Summed(before, in0.View(), in1.View(), at)
  }

  // The images do not overlap, and hold `columns` by `rows` pixels.
  ghost predicate Apart(in0: Tile<Byte>, in1: Tile<Byte>, out: Tile<int>, columns: nat, rows: nat) {
    && in0.Holds(columns, rows) && in1.Holds(columns, rows) && out.Holds(columns, rows)
    && in0.memory as object != out.memory && in1.memory as object != out.memory
  }

  // The body of every loop.
  method AddPixel(in0: Tile<Byte>, in1: Tile<Byte>, out: Tile<int>, x: nat, y: nat,
                  ghost before: map<Pixel, int>, ghost w: seq<Pixel>, ghost at: seq<Pixel>)
    requires Apart(in0, in1, out, x + 1, y + 1)
    requires Stands(in0, in1, out, before, w, at)
    modifies out`writes, out.memory
    ensures Stands(in0, in1, out, before, w, at + [(x, y)])
  {
    hide Summed;
    ghost var a, b := in0.View(), in1.View();
    SumOneMore(before, a, b, at, (x, y));
    assert (x, y) in out.View();
    assert a[(x, y)] == in0.memory[y, x] && b[(x, y)] == in1.memory[y, x];
    out.Put(x, y, Added(in0.memory[y, x], in1.memory[y, x]));
    assert in0.View() == a && in1.View() == b;
  }

  lemma {:induction false} SumOneMore(before: map<Pixel, int>, a: map<Pixel, Byte>, b: map<Pixel, Byte>,
                                      at: seq<Pixel>, p: Pixel)
    requires p in a && p in b
    ensures Summed(before, a, b, at).Keys == before.Keys
    ensures p in before ==> Summed(before, a, b, at)[p := Added(a[p], b[p])] == Summed(before, a, b, at + [p])
  {
  }

  // A row of add_image_tiling.
  method AddBlockRow(in0: Tile<Byte>, in1: Tile<Byte>, out: Tile<int>, j: nat,
                     ghost before: map<Pixel, int>, ghost w: seq<Pixel>, ghost above: seq<Pixel>)
    requires out.blockWidth > 0 && j < out.height && Apart(in0, in1, out, out.width, out.height)
    requires Stands(in0, in1, out, before, w, above)
    modifies out`writes, out.memory
    ensures Stands(in0, in1, out, before, w, above + Row(out.width, j, out.blockWidth))
  {
    hide Stands, Row;
    RowStarts(above, j, out.blockWidth);
    var i := 0;
    while i < out.width
      invariant i % out.blockWidth == 0 && (i == 0 || i < out.width + out.blockWidth)
      invariant Stands(in0, in1, out, before, w, above + Row(i, j, out.blockWidth))
    {
      AddPixel(in0, in1, out, i, j, before, w, above + Row(i, j, out.blockWidth));
      RowSteps(above, i, j, out.blockWidth);
      i := i + out.blockWidth;
    }
    RowEnds(i, out.width, j, out.blockWidth);
  }

  // add_image_tiling: one store per block.
  method AddBlocks(in0: Tile<Byte>, in1: Tile<Byte>, out: Tile<int>)
    requires out.blockWidth > 0 && out.blockHeight > 0
    requires Apart(in0, in1, out, out.width, out.height)
    modifies out`writes, out.memory
    ensures Stands(in0, in1, out, old(out.View()), old(out.writes),
                   Grid(out.width, out.height, out.blockWidth, out.blockHeight))
  {
    hide Stands, Row, Grid;
    ghost var before, w := out.View(), out.writes;
    GridStarts(in0, in1, out, out.width, out.blockWidth, out.blockHeight);
    var j := 0;
    while j < out.height
      invariant j % out.blockHeight == 0 && (j == 0 || j < out.height + out.blockHeight)
      invariant Stands(in0, in1, out, before, w, Grid(out.width, j, out.blockWidth, out.blockHeight))
    {
      AddBlockRow(in0, in1, out, j, before, w, Grid(out.width, j, out.blockWidth, out.blockHeight));
      GridSteps(out.width, j, out.blockWidth, out.blockHeight);
      j := j + out.blockHeight;
    }
    GridEnds(out.width, j, out.height, out.blockWidth, out.blockHeight);
  }

  // The 16 pixels of a block in row y.
  method AddFastRun(in0: Tile<Byte>, in1: Tile<Byte>, out: Tile<int>, i: nat, y: nat,
                    ghost before: map<Pixel, int>, ghost w: seq<Pixel>, ghost above: seq<Pixel>)
    requires Apart(in0, in1, out, i + BLOCK, y + 1)
    requires Stands(in0, in1, out, before, w, above + Row(i, y, 1))
    modifies out`writes, out.memory
    ensures Stands(in0, in1, out, before, w, above + Row(i + BLOCK, y, 1))
  {
    hide Stands, Row;
    for ii := 0 to BLOCK
      invariant Stands(in0, in1, out, before, w, above + Row(i + ii, y, 1))
    {
      AddPixel(in0, in1, out, i + ii, y, before, w, above + Row(i + ii, y, 1));
      RowSteps(above, i + ii, y, 1);
    }
  }

  // The blocks of row y.
  method AddFastRow(in0: Tile<Byte>, in1: Tile<Byte>, out: Tile<int>, y: nat,
                    ghost before: map<Pixel, int>, ghost w: seq<Pixel>, ghost above: seq<Pixel>)
    requires Apart(in0, in1, out, Whole(out.width), y + 1)
    requires Stands(in0, in1, out, before, w, above)
    modifies out`writes, out.memory
    ensures Stands(in0, in1, out, before, w, above + Row(Whole(out.width), y, 1))
  {
    hide Stands, Row;
    RowStarts(above, y, 1);
    var i := 0;
    while i < out.width
      invariant i % BLOCK == 0 && i <= Whole(out.width)
      invariant Stands(in0, in1, out, before, w, above + Row(i, y, 1))
    {
      AddFastRun(in0, in1, out, i, y, before, w, above);
      i := i + BLOCK;
    }
  }

  // The 16 rows from row j.
  method AddFastBand(in0: Tile<Byte>, in1: Tile<Byte>, out: Tile<int>, j: nat,
                     ghost before: map<Pixel, int>, ghost w: seq<Pixel>)
    requires Apart(in0, in1, out, Whole(out.width), j + BLOCK)
    requires Stands(in0, in1, out, before, w, Grid(Whole(out.width), j, 1, 1))
    modifies out`writes, out.memory
    ensures Stands(in0, in1, out, before, w, Grid(Whole(out.width), j + BLOCK, 1, 1))
  {
    hide Stands, Row, Grid, Whole;
    for jj := 0 to BLOCK
      invariant Stands(in0, in1, out, before, w, Grid(Whole(out.width), j + jj, 1, 1))
    {
      AddFastRow(in0, in1, out, j + jj, before, w, Grid(Whole(out.width), j + jj, 1, 1));
      GridSteps(Whole(out.width), j + jj, 1, 1);
    }
  }

  // add_image_tiling_fast: the loops j, jj, i and ii.  It stores whole blocks, so the memory must
  // hold them.
  method AddFast(in0: Tile<Byte>, in1: Tile<Byte>, out: Tile<int>)
    requires Apart(in0, in1, out, Whole(out.width), Whole(out.height))
    modifies out`writes, out.memory
    ensures Stands(in0, in1, out, old(out.View()), old(out.writes), Grid(Whole(out.width), Whole(out.height), 1, 1))
  {
    hide Stands, Row, Grid;
    ghost var before, w := out.View(), out.writes;
    GridStarts(in0, in1, out, Whole(out.width), 1, 1);
    var j := 0;
    while j < out.height
      invariant j % BLOCK == 0 && j <= Whole(out.height)
      invariant Stands(in0, in1, out, before, w, Grid(Whole(out.width), j, 1, 1))
    {
      AddFastBand(in0, in1, out, j, before, w);
      j := j + BLOCK;
    }
  }

  // A row of add_image_tiling_flexible.
  method AddFlexibleRow(in0: Tile<Byte>, in1: Tile<Byte>, out: Tile<int>, j: nat,
                        ghost before: map<Pixel, int>, ghost w: seq<Pixel>, ghost above: seq<Pixel>)
    requires j < out.height && Apart(in0, in1, out, out.width, out.height)
    requires Stands(in0, in1, out, before, w, above)
    modifies out`writes, out.memory
    ensures Stands(in0, in1, out, before, w, above + Row(out.width, j, 1))
  {
    hide Stands, Row;
    RowStarts(above, j, 1);
    for i := 0 to out.width
      invariant Stands(in0, in1, out, before, w, above + Row(i, j, 1))
    {
      AddPixel(in0, in1, out, i, j, before, w, above + Row(i, j, 1));
      RowSteps(above, i, j, 1);
    }
  }

  // add_image_tiling_flexible: every pixel, row by row.
  method AddFlexible(in0: Tile<Byte>, in1: Tile<Byte>, out: Tile<int>)
    requires Apart(in0, in1, out, out.width, out.height)
    modifies out`writes, out.memory
    ensures Stands(in0, in1, out, old(out.View()), old(out.writes), Grid(out.width, out.height, 1, 1))
  {
    hide Stands, Row, Grid;
    ghost var before, w := out.View(), out.writes;
    GridStarts(in0, in1, out, out.width, 1, 1);
    for j := 0 to out.height
      invariant Stands(in0, in1, out, before, w, Grid(out.width, j, 1, 1))
    {
      AddFlexibleRow(in0, in1, out, j, before, w, Grid(out.width, j, 1, 1));
      GridSteps(out.width, j, 1, 1);
    }
  }

  // ---------------------------------------------------------------- loop steps

  // A size rounded up to whole blocks.
  ghost function Whole(n: nat): (r: nat)
    ensures r % BLOCK == 0 && n <= r < n + BLOCK
  {
    (n + BLOCK - 1) / BLOCK * BLOCK
  }

  lemma {:induction false} RowStarts(above: seq<Pixel>, y: nat, step: nat)
    requires step > 0
    ensures above + Row(0, y, step) == above && 0 % step == 0
  {
  }

  lemma {:induction false} RowSkips(c: nat, d: nat, y: nat, step: nat)
    requires step > 0 && c <= d && forall u: nat | c <= u < d :: u % step != 0
    ensures Row(c, y, step) == Row(d, y, step)
  {
    if c < d {
      RowSkips(c, d - 1, y, step);
    }
  }

  lemma {:induction false} RowSteps(above: seq<Pixel>, i: nat, y: nat, step: nat)
    requires step > 0 && i % step == 0
    ensures above + Row(i, y, step) + [(i, y)] == above + Row(i + step, y, step)
    ensures (i + step) % step == 0
  {
    NextOnGrid(i, step);
    RowSkips(i + 1, i + step, y, step);
    assert Row(i + 1, y, step) == Row(i, y, step) + [(i, y)];
  }

  // Past the last column there is nothing up to the next grid point.
  lemma {:induction false} RowEnds(i: nat, columns: nat, y: nat, step: nat)
    requires step > 0 && i % step == 0 && columns <= i && (i == 0 || i < columns + step)
    ensures Row(i, y, step) == Row(columns, y, step)
  {
    NothingBetween(columns, i, step);
    RowSkips(columns, i, y, step);
  }

  lemma {:induction false} NothingBetween(n: nat, i: nat, step: nat)
    requires step > 0 && i % step == 0 && n <= i && (i == 0 || i < n + step)
    ensures forall u: nat | n <= u < i :: u % step != 0
  {
    forall u: nat | n <= u < i ensures u % step != 0 {
      if u % step == 0 {
        NextOnGrid(u, step);
      }
    }
  }

  lemma {:induction false} GridStarts(in0: Tile<Byte>, in1: Tile<Byte>, out: Tile<int>,
                                      columns: nat, stepX: nat, stepY: nat)
    requires stepX > 0 && stepY > 0
    ensures Stands(in0, in1, out, out.View(), out.writes, Grid(columns, 0, stepX, stepY))
    ensures 0 % stepY == 0
  {
  }

  lemma {:induction false} GridSkips(columns: nat, c: nat, d: nat, stepX: nat, stepY: nat)
    requires stepX > 0 && stepY > 0 && c <= d && forall u: nat | c <= u < d :: u % stepY != 0
    ensures Grid(columns, c, stepX, stepY) == Grid(columns, d, stepX, stepY)
  {
    if c < d {
      GridSkips(columns, c, d - 1, stepX, stepY);
    }
  }

  lemma {:induction false} GridSteps(columns: nat, j: nat, stepX: nat, stepY: nat)
    requires stepX > 0 && stepY > 0 && j % stepY == 0
    ensures Grid(columns, j, stepX, stepY) + Row(columns, j, stepX) == Grid(columns, j + stepY, stepX, stepY)
    ensures (j + stepY) % stepY == 0
  {
    NextOnGrid(j, stepY);
    GridSkips(columns, j + 1, j + stepY, stepX, stepY);
  }

  lemma {:induction false} GridEnds(columns: nat, j: nat, rows: nat, stepX: nat, stepY: nat)
    requires stepX > 0 && stepY > 0 && j % stepY == 0 && rows <= j && (j == 0 || j < rows + stepY)
    ensures Grid(columns, j, stepX, stepY) == Grid(columns, rows, stepX, stepY)
  {
    NothingBetween(rows, j, stepY);
    GridSkips(columns, rows, j, stepX, stepY);
  }

  // ---------------------------------------------------------------- laws

  lemma {:induction false} InRow(columns: nat, y: nat, step: nat, p: Pixel)
    requires step > 0
    ensures p in Row(columns, y, step) <==> p.0 < columns && p.1 == y && p.0 % step == 0
  {
    if columns > 0 {
      InRow(columns - 1, y, step, p);
    }
  }

  // Which pixels the loops store.
  lemma {:induction false} InGrid(columns: nat, rows: nat, stepX: nat, stepY: nat, p: Pixel)
    requires stepX > 0 && stepY > 0
    ensures p in Grid(columns, rows, stepX, stepY) <==>
            p.0 < columns && p.1 < rows && p.0 % stepX == 0 && p.1 % stepY == 0
  {
    hide Row;
    if rows > 0 {
      InGrid(columns, rows - 1, stepX, stepY, p);
      InRow(columns, rows - 1, stepX, p);
    }
  }

  lemma {:induction false} RowDistinct(columns: nat, y: nat, step: nat)
    requires step > 0
    ensures Distinct(Row(columns, y, step))
  {
    if columns > 0 {
      RowDistinct(columns - 1, y, step);
      InRow(columns - 1, y, step, (columns - 1, y));
      var last := if (columns - 1) % step == 0 then [(columns - 1, y)] else [];
      DistinctConcat(Row(columns - 1, y, step), last);
    }
  }

  // No pixel is stored twice.
  lemma {:induction false} StoredOnce(columns: nat, rows: nat, stepX: nat, stepY: nat)
    requires stepX > 0 && stepY > 0
    ensures Distinct(Grid(columns, rows, stepX, stepY))
  {
    hide Row;
    if rows > 0 {
      StoredOnce(columns, rows - 1, stepX, stepY);
      var above := Grid(columns, rows - 1, stepX, stepY);
      if (rows - 1) % stepY == 0 {
        RowDistinct(columns, rows - 1, stepX);
        forall p | p in Row(columns, rows - 1, stepX) ensures p !in above {
          InGrid(columns, rows - 1, stepX, stepY, p);
          InRow(columns, rows - 1, stepX, p);
        }
        DistinctConcat(above, Row(columns, rows - 1, stepX));
      }
    }
  }

  // The fast kernel makes the same stores in the same order as the flexible one exactly when the
  // tile consists of whole blocks, or is empty.
  lemma {:induction false} FastIsFlexibleIff(width: nat, height: nat)
    ensures Grid(Whole(width), Whole(height), 1, 1) == Grid(width, height, 1, 1) <==>
            width == 0 || height == 0 || (width % BLOCK == 0 && height % BLOCK == 0)
  {
    hide Row, Grid;
    var w, h := Whole(width), Whole(height);
    InGrid(w, h, 1, 1, (width, 0));
    InGrid(width, height, 1, 1, (width, 0));
    InGrid(w, h, 1, 1, (0, height));
    InGrid(width, height, 1, 1, (0, height));
    WholeIs(width);
    WholeIs(height);
    if width == 0 || height == 0 {
      NoPixels(w, h);
      NoPixels(width, height);
    }
  }

  lemma {:induction false} WholeIs(n: nat)
    ensures Whole(n) == n <==> n % BLOCK == 0
  {
  }

  lemma {:induction false} NoPixels(columns: nat, rows: nat)
    requires columns == 0 || rows == 0
    ensures Grid(columns, rows, 1, 1) == []
  {
    if rows > 0 {
      NoPixels(columns, rows - 1);
    }
  }

  // On every tile, whole blocks or not, the two kernels leave the same sums at the tile's own pixels.
  lemma {:induction false} FastIsFlexibleInside(width: nat, height: nat, before: map<Pixel, int>,
                                                a: map<Pixel, Byte>, b: map<Pixel, Byte>, p: Pixel)
    requires p in before && p in a && p in b && p.0 < width && p.1 < height
    ensures Summed(before, a, b, Grid(Whole(width), Whole(height), 1, 1))[p] == (a[p] as int) + b[p]
    ensures Summed(before, a, b, Grid(width, height, 1, 1))[p] == (a[p] as int) + b[p]
  {
    hide Row, Grid;
    InGrid(width, height, 1, 1, p);
    InGrid(Whole(width), Whole(height), 1, 1, p);
  }

  // The kernel that stores one pixel per block covers the tile exactly when no block is longer
  // than one pixel in a direction in which the tile is.
  lemma {:induction false} BlocksCoverIff(width: nat, height: nat, stepX: nat, stepY: nat)
    requires stepX > 0 && stepY > 0 && width > 0 && height > 0
    ensures (forall p: Pixel :: p in Grid(width, height, 1, 1) ==> p in Grid(width, height, stepX, stepY)) <==>
            (stepX == 1 || width == 1) && (stepY == 1 || height == 1)
  {
    hide Row, Grid;
    if (stepX == 1 || width == 1) && (stepY == 1 || height == 1) {
      forall p: Pixel | p in Grid(width, height, 1, 1) ensures p in Grid(width, height, stepX, stepY) {
        InGrid(width, height, 1, 1, p);
        InGrid(width, height, stepX, stepY, p);
      }
    }
    InGrid(width, height, 1, 1, (1, 0));
    InGrid(width, height, stepX, stepY, (1, 0));
    InGrid(width, height, 1, 1, (0, 1));
    InGrid(width, height, stepX, stepY, (0, 1));
  }

  // On a tile 17 pixels wide the fast kernel also stores pixels that are not of the tile.
  lemma {:induction false} RaggedTile() returns (p: Pixel)
    ensures p !in Grid(17, 1, 1, 1) && p in Grid(Whole(17), Whole(1), 1, 1)
    ensures Grid(Whole(17), Whole(1), 1, 1) != Grid(17, 1, 1, 1)
  {
    p := (17, 0);
    InGrid(17, 1, 1, 1, p);
    InGrid(Whole(17), Whole(1), 1, 1, p);
  }

  ghost predicate RowMajor(s: seq<Pixel>) {
    forall j, k | 0 <= j < k < |s| :: s[j].1 < s[k].1 || (s[j].1 == s[k].1 && s[j].0 < s[k].0)
  }

  lemma {:induction false} RowMajorConcat(s: seq<Pixel>, t: seq<Pixel>)
    requires RowMajor(s) && RowMajor(t)
    requires forall p <- s, q <- t :: p.1 < q.1 || (p.1 == q.1 && p.0 < q.0)
    ensures RowMajor(s + t)
  {
    forall j, k | 0 <= j < k < |s + t|
      ensures (s + t)[j].1 < (s + t)[k].1 || ((s + t)[j].1 == (s + t)[k].1 && (s + t)[j].0 < (s + t)[k].0)
    {
      if j < |s| <= k {
        assert s[j] in s && t[k - |s|] in t;
      }
    }
  }

  lemma {:induction false} RowIsRowMajor(columns: nat, y: nat, step: nat)
    requires step > 0
    ensures RowMajor(Row(columns, y, step))
  {
    if columns > 0 {
      RowIsRowMajor(columns - 1, y, step);
      forall p | p in Row(columns - 1, y, step) ensures p.1 == y && p.0 < columns - 1 {
        InRow(columns - 1, y, step, p);
      }
      var last := if (columns - 1) % step == 0 then [(columns - 1, y)] else [];
      RowMajorConcat(Row(columns - 1, y, step), last);
    }
  }

  // The stores are made row by row, and in each row from left to right; with InGrid, this fixes the
  // whole sequence of stores.
  lemma {:induction false} StoredInRowMajorOrder(columns: nat, rows: nat, stepX: nat, stepY: nat)
    requires stepX > 0 && stepY > 0
    ensures RowMajor(Grid(columns, rows, stepX, stepY))
  {
    hide Row;
    if rows > 0 {
      StoredInRowMajorOrder(columns, rows - 1, stepX, stepY);
      RowIsRowMajor(columns, rows - 1, stepX);
      var above, row := Grid(columns, rows - 1, stepX, stepY), Row(columns, rows - 1, stepX);
      forall p, q | p in above && q in row ensures p.1 < q.1 {
        InGrid(columns, rows - 1, stepX, stepY, p);
        InRow(columns, rows - 1, stepX, q);
      }
      RowMajorConcat(above, row);
      assert above + [] == above;
    }
  }

  // Where a kernel stores it leaves the plain sum, and elsewhere what was there.
  lemma {:induction false} SumsWhereStored(before: map<Pixel, int>, a: map<Pixel, Byte>, b: map<Pixel, Byte>,
                                           columns: nat, rows: nat, stepX: nat, stepY: nat, p: Pixel)
    requires stepX > 0 && stepY > 0 && p in before && p in a && p in b
    ensures Summed(before, a, b, Grid(columns, rows, stepX, stepY)).Keys == before.Keys
    ensures Summed(before, a, b, Grid(columns, rows, stepX, stepY))[p] ==
            if p.0 < columns && p.1 < rows && p.0 % stepX == 0 && p.1 % stepY == 0 then (a[p] as int) + b[p]
            else before[p]
  {
    hide Grid;
    InGrid(columns, rows, stepX, stepY, p);
  }
}
