/**
 Addressing of a mapped image patch: the 1d and 2d formatting functions and the two direct
 formulas a client may use, in 32-bit unsigned arithmetic, and the four traversals of the
 example that are meant to touch the same bytes.
 */
module Addressing {
  import opened Division
  import opened Values

  const TWO_32: nat := 0x1_0000_0000
  const SCALE_UNITY: nat := 1024

  datatype Layout = Layout(dimX: nat, dimY: nat, strideX: int, strideY: int,
                           scaleX: nat, scaleY: nat, stepX: nat, stepY: nat)

  // Wrap-around of vx_uint32.
  function W(x: int): (r: nat)
    ensures r < TWO_32
  {
    x % TWO_32
  }

  // vxComputePatchOffset
  function PatchOffset(x: nat, y: nat, a: Layout): nat {
    W(W(a.strideY * (W(a.scaleY * y) / SCALE_UNITY)) + W(a.strideX * (W(a.scaleX * x) / SCALE_UNITY)))
  }

  // The offset the 2d function adds to the base pointer.
  function Format2d(x: nat, y: nat, a: Layout): Option<nat> {
    if x < a.dimX && y < a.dimY then Some(PatchOffset(x, y, a)) else None
  }

  function Format1d(index: nat, a: Layout): Option<nat> {
    if index < W(a.dimX * a.dimY) then
      if a.dimX == 0 then None else Some(PatchOffset(index % a.dimX, index / a.dimX, a))
    else None
  }

  // One axis of the client's formula: stride * coordinate * scale, then divide.
  function DirectAxis(stride: int, coordinate: nat, scale: nat): nat {
    W(W(stride * coordinate) * scale) / SCALE_UNITY
  }

  function Direct(x: nat, y: nat, a: Layout): nat {
    W(DirectAxis(a.strideY, y, a.scaleY) + DirectAxis(a.strideX, x, a.scaleX))
  }

  // ---------------------------------------------------------------- no overflow

  ghost predicate AxisFits(stride: int, coordinate: nat, scale: nat) {
    && 0 <= stride
    && scale * coordinate < TWO_32
    && stride * coordinate < TWO_32
    && stride * coordinate * scale < TWO_32
    && stride * (scale * coordinate / SCALE_UNITY) < TWO_32
  }

  ghost predicate Fits(x: nat, y: nat, a: Layout) {
    && AxisFits(a.strideX, x, a.scaleX) && AxisFits(a.strideY, y, a.scaleY)
    && a.strideY * (a.scaleY * y / SCALE_UNITY) + a.strideX * (a.scaleX * x / SCALE_UNITY) < TWO_32
    && a.strideY * y * a.scaleY / SCALE_UNITY + a.strideX * x * a.scaleX / SCALE_UNITY < TWO_32
  }

  // Dividing after multiplying by the stride loses less than dividing before it.
  lemma {:induction false} AxisDifference(stride: nat, coordinate: nat, scale: nat)
    ensures stride * coordinate * scale / SCALE_UNITY ==
            stride * (scale * coordinate / SCALE_UNITY) + stride * (scale * coordinate % SCALE_UNITY) / SCALE_UNITY
  {
    var p := scale * coordinate;
    var q, r := p / SCALE_UNITY, p % SCALE_UNITY;
    assert p == SCALE_UNITY * q + r;
    assert stride * coordinate * scale == stride * p;
    assert stride * p == SCALE_UNITY * (stride * q) + stride * r by {
      assert stride * (SCALE_UNITY * q) == SCALE_UNITY * (stride * q);
    }
    DivideSum(stride * q, stride * r);
  }

  lemma {:induction false} DivideSum(a: int, b: nat)
    ensures (SCALE_UNITY * a + b) / SCALE_UNITY == a + b / SCALE_UNITY
  {
  }

  lemma {:induction false} Small(x: int)
    requires 0 <= x < TWO_32
    ensures W(x) == x
  {
  }

  lemma {:induction false} PlainAxis(stride: int, coordinate: nat, scale: nat)
    requires AxisFits(stride, coordinate, scale)
    ensures W(stride * (W(scale * coordinate) / SCALE_UNITY)) == stride * (scale * coordinate / SCALE_UNITY)
    ensures DirectAxis(stride, coordinate, scale) == stride * coordinate * scale / SCALE_UNITY
    ensures stride * (scale * coordinate / SCALE_UNITY) >= 0 && stride * coordinate * scale >= 0
  {
    hide W;
    Product(scale, coordinate);
    Product(stride, coordinate);
    Product(stride * coordinate, scale);
    Product(stride, scale * coordinate / SCALE_UNITY);
    Small(scale * coordinate);
    Small(stride * (scale * coordinate / SCALE_UNITY));
    Small(stride * coordinate);
    Small(stride * coordinate * scale);
  }

  // Without overflow the formulas are the plain ones.
  lemma {:induction false} PlainOffsets(x: nat, y: nat, a: Layout)
    requires Fits(x, y, a)
    ensures PatchOffset(x, y, a) == a.strideY * (a.scaleY * y / SCALE_UNITY) + a.strideX * (a.scaleX * x / SCALE_UNITY)
    ensures Direct(x, y, a) == a.strideY * y * a.scaleY / SCALE_UNITY + a.strideX * x * a.scaleX / SCALE_UNITY
  {
    hide W, DirectAxis, AxisFits;
    PlainAxis(a.strideX, x, a.scaleX);
    PlainAxis(a.strideY, y, a.scaleY);
    Small(a.strideY * (a.scaleY * y / SCALE_UNITY) + a.strideX * (a.scaleX * x / SCALE_UNITY));
    Small(a.strideY * y * a.scaleY / SCALE_UNITY + a.strideX * x * a.scaleX / SCALE_UNITY);
  }

  // Where nothing overflows, the client's formula gives the offset of the 2d function exactly
  // when on both axes the stride times the scaling remainder stays below the unit.
  lemma {:induction false} DirectAgreesIff(x: nat, y: nat, a: Layout)
    requires Fits(x, y, a)
    ensures Direct(x, y, a) == PatchOffset(x, y, a) <==>
            a.strideY * (a.scaleY * y % SCALE_UNITY) < SCALE_UNITY &&
            a.strideX * (a.scaleX * x % SCALE_UNITY) < SCALE_UNITY
  {
    PlainOffsets(x, y, a);
    AxisDifference(a.strideX, x, a.scaleX);
    AxisDifference(a.strideY, y, a.scaleY);
    Product(a.strideX, a.scaleX * x % SCALE_UNITY);
    Product(a.strideY, a.scaleY * y % SCALE_UNITY);
    SumsAgree(a.strideY * (a.scaleY * y / SCALE_UNITY), a.strideX * (a.scaleX * x / SCALE_UNITY),
              a.strideY * (a.scaleY * y % SCALE_UNITY), a.strideX * (a.scaleX * x % SCALE_UNITY));
  }

  lemma {:induction false} SumsAgree(p: int, q: int, r: nat, s: nat)
    ensures (p + r / SCALE_UNITY) + (q + s / SCALE_UNITY) == p + q <==> r < SCALE_UNITY && s < SCALE_UNITY
  {
  }

  // A coordinate on the step grid of an axis.
  ghost predicate OnGrid(coordinate: nat, step: nat, n: nat) {
    coordinate == n * step
  }

  lemma {:induction false} GridScales(scale: nat, step: nat, n: nat, unit: nat)
    requires scale * step == unit * SCALE_UNITY
    ensures scale * (n * step) == (n * unit) * SCALE_UNITY
    ensures scale * (n * step) % SCALE_UNITY == 0 && scale * (n * step) / SCALE_UNITY == n * unit
  {
    assert scale * (n * step) == n * (scale * step) == n * (unit * SCALE_UNITY) == (n * unit) * SCALE_UNITY;
  }

  // On the step grid, with the unit dividing scale * step, the four addressings agree.
  lemma {:induction false} AddressingsAgree(x: nat, y: nat, a: Layout, i: nat, j: nat, unitX: nat, unitY: nat)
    requires Fits(x, y, a) && x < a.dimX && y < a.dimY && a.dimX * a.dimY < TWO_32
    requires OnGrid(x, a.stepX, i) && OnGrid(y, a.stepY, j)
    requires a.scaleX * a.stepX == unitX * SCALE_UNITY && a.scaleY * a.stepY == unitY * SCALE_UNITY
    ensures Format2d(x, y, a) == Format1d(y * a.dimX + x, a) == Some(Direct(x, y, a))
    ensures PatchOffset(x, y, a) == a.strideY * (j * unitY) + a.strideX * (i * unitX)
  {
    hide PatchOffset, Direct, Fits;
    GridScales(a.scaleX, a.stepX, i, unitX);
    GridScales(a.scaleY, a.stepY, j, unitY);
    PlainOffsets(x, y, a);
    DirectAgreesIff(x, y, a);
    LinearIndex(x, y, a.dimX, a.dimY);
  }

  // ---------------------------------------------------------------- separation

  // With scale * step equal to the unit and row-major strides, distinct grid points are at least
  // a pixel apart.
  lemma {:induction false} GridPointsApart(a: Layout, i: nat, j: nat, k: nat, l: nat)
    requires a.scaleX * a.stepX == SCALE_UNITY && a.scaleY * a.stepY == SCALE_UNITY
    requires 0 < a.strideX && a.strideX * a.dimX <= a.strideY
    requires i * a.stepX < a.dimX && k * a.stepX < a.dimX
    requires Fits(i * a.stepX, j * a.stepY, a) && Fits(k * a.stepX, l * a.stepY, a)
    requires (i, j) != (k, l)
    ensures var p, q := PatchOffset(i * a.stepX, j * a.stepY, a), PatchOffset(k * a.stepX, l * a.stepY, a);
            p + a.strideX <= q || q + a.strideX <= p
  {
    hide PatchOffset, Fits;
    GridScales(a.scaleX, a.stepX, i, 1);
    GridScales(a.scaleX, a.stepX, k, 1);
    GridScales(a.scaleY, a.stepY, j, 1);
    GridScales(a.scaleY, a.stepY, l, 1);
    PlainOffsets(i * a.stepX, j * a.stepY, a);
    PlainOffsets(k * a.stepX, l * a.stepY, a);
    StepPositive(a.scaleX, a.stepX);
    GridIndexBelow(i, a.stepX, a.dimX);
    GridIndexBelow(k, a.stepX, a.dimX);
    if j < l || (j == l && i < k) {
      RowMajor(a.strideX, a.strideY, a.dimX, i, j, k, l);
    } else {
      RowMajor(a.strideX, a.strideY, a.dimX, k, l, i, j);
    }
  }

  lemma {:induction false} StepPositive(scale: nat, step: nat)
    requires scale * step == SCALE_UNITY
    ensures step > 0
  {
  }

  lemma {:induction false} GridIndexBelow(i: nat, step: nat, dim: nat)
    requires 0 < step && i * step < dim
    ensures i < dim
  {
    assert i * 1 <= i * step;
  }

  lemma {:induction false} RowMajor(strideX: nat, strideY: nat, dim: nat, i: nat, j: nat, k: nat, l: nat)
    requires strideX * dim <= strideY && i < dim
    requires j < l || (j == l && i < k)
    ensures strideY * j + strideX * i + strideX <= strideY * l + strideX * k
  {
    NextMultiple(strideX, i);
    NextMultiple(strideY, j);
    if j < l {
      MoreRows(i + 1, dim, strideX);
      MoreRows(j + 1, l, strideY);
      Product(strideX, k);
    } else {
      MoreRows(i + 1, k, strideX);
    }
  }

  lemma {:induction false} NextMultiple(stride: nat, i: nat)
    ensures (i + 1) * stride == stride * i + stride
  {
  }

  // ---------------------------------------------------------------- the four traversals

  // The buffer with `pixel` stored at the given offsets.
  ghost function Painted(buffer: seq<Byte>, offsets: set<nat>, pixel: Byte): (r: seq<Byte>)
    ensures |r| == |buffer|
    ensures forall k: nat | k < |r| :: r[k] == if k in offsets then pixel else buffer[k]
  {
    seq(|buffer|, k requires 0 <= k < |buffer| => if k in offsets then pixel else buffer[k])
  }

  // What the traversals need of a layout: steps, no overflow, and room for every pixel.
  ghost predicate Paintable(a: Layout, size: nat) {
    && 0 < a.stepX && 0 < a.stepY && a.dimX * a.dimY < TWO_32
    && a.dimX + a.stepX <= TWO_32 && a.dimY + a.stepY <= TWO_32
    && forall x: nat, y: nat | x < a.dimX && y < a.dimY :: Fits(x, y, a) && PatchOffset(x, y, a) < size
  }

  // The offsets of all pixels.
  ghost function AllOffsets(a: Layout): set<nat> {
    set x: nat, y: nat | x < a.dimX && y < a.dimY :: PatchOffset(x, y, a)
  }

  // The offsets of the grid points in row y left of column x.
  ghost function RowOffsets(a: Layout, x: nat, y: nat): set<nat>
    requires 0 < a.stepX
  {
    set u: nat | u < x && u < a.dimX && u % a.stepX == 0 :: PatchOffset(u, y, a)
  }

  // The offsets of the grid points in the rows before y.
  ghost function GridOffsets(a: Layout, y: nat): set<nat>
    requires 0 < a.stepX && 0 < a.stepY
  {
    set u: nat, v: nat | u < a.dimX && v < y && v < a.dimY && u % a.stepX == 0 && v % a.stepY == 0 ::
      PatchOffset(u, v, a)
  }

  lemma {:induction false} RowNext(a: Layout, x: nat, y: nat)
    requires 0 < a.stepX && x < a.dimX && x % a.stepX == 0
    ensures RowOffsets(a, x + a.stepX, y) == RowOffsets(a, x, y) + {PatchOffset(x, y, a)}
  {
    NextOnGrid(x, a.stepX);
  }

  lemma {:induction false} RowsNext(a: Layout, x: nat, y: nat)
    requires 0 < a.stepX && 0 < a.stepY && x >= a.dimX && y < a.dimY && y % a.stepY == 0
    ensures GridOffsets(a, y + a.stepY) == GridOffsets(a, y) + RowOffsets(a, x, y)
  {
    NextOnGrid(y, a.stepY);
  }

  lemma {:induction false} PaintMore(buffer: seq<Byte>, offsets: set<nat>, pixel: Byte, k: nat)
    requires k < |buffer|
    ensures Painted(buffer, offsets, pixel)[k := pixel] == Painted(buffer, offsets + {k}, pixel)
  {
  }

  // The offset of the pixel with linear index i.
  ghost function LinearOffset(a: Layout, i: nat): nat
    requires a.dimX > 0
  {
    PatchOffset(i % a.dimX, i / a.dimX, a)
  }

  // Offset k belongs to a pixel with linear index below i.
  ghost predicate LinearHit(a: Layout, i: nat, k: nat) {
    a.dimX > 0 && exists n: nat :: n < i && k == LinearOffset(a, n)
  }

  // Linear addressing.
  method PaintLinear(buffer: array<Byte>, a: Layout, pixel: Byte)
    requires Paintable(a, buffer.Length)
    modifies buffer
    ensures buffer[..] == Painted(old(buffer[..]), AllOffsets(a), pixel)
  {
    hide PatchOffset, Fits, LinearHit, LinearOffset, AllOffsets, Format1d, Paintable, Painted, W;
    ghost var seen: set<nat> := {};
    ghost var before := buffer[..];
    var count := W(a.dimX * a.dimY);
    LinearStarts(a, before, pixel);
    for i := 0 to count
      invariant buffer[..] == Painted(before, seen, pixel)
      invariant forall k: nat :: k in seen <==> LinearHit(a, i, k)
    {
      LinearStep(a, buffer.Length, i);
      var offset := Format1d(i, a);
      PaintMore(before, seen, pixel, offset.value);
      buffer[offset.value] := pixel;
      LinearNext(a, i);
      seen := seen + {offset.value};
    }
    LinearAll(a);
    assert seen == AllOffsets(a);
  }

  lemma {:induction false} LinearStarts(a: Layout, before: seq<Byte>, pixel: Byte)
    requires Paintable(a, |before|)
    ensures W(a.dimX * a.dimY) == a.dimX * a.dimY
    ensures before == Painted(before, {}, pixel) && forall k: nat :: !LinearHit(a, 0, k)
  {
    hide Fits, PatchOffset, W, LinearOffset, Paintable;
    LinearCount(a, |before|);
  }

  // Every linear index gives an offset in the buffer.
  lemma {:induction false} LinearStep(a: Layout, size: nat, i: nat)
    requires Paintable(a, size) && i < W(a.dimX * a.dimY)
    ensures a.dimX > 0 && Format1d(i, a) == Some(LinearOffset(a, i)) && LinearOffset(a, i) < size
  {
    hide PatchOffset, Fits, Paintable, W, LinearOffset, Format1d;
    LinearCount(a, size);
    InRows(i, a.dimX, a.dimY);
    LinearIs(a, i, i % a.dimX, i / a.dimX);
    InBuffer(a, size, i % a.dimX, i / a.dimX);
  }

  lemma {:induction false} LinearCount(a: Layout, size: nat)
    requires Paintable(a, size)
    ensures W(a.dimX * a.dimY) == a.dimX * a.dimY
  {
    hide Fits, PatchOffset, W;
    Product(a.dimX, a.dimY);
    Small(a.dimX * a.dimY);
  }

  lemma {:induction false} LinearIs(a: Layout, i: nat, x: nat, y: nat)
    requires a.dimX > 0 && i < W(a.dimX * a.dimY) && x == i % a.dimX && y == i / a.dimX
    ensures LinearOffset(a, i) == PatchOffset(x, y, a) && Format1d(i, a) == Some(PatchOffset(x, y, a))
  {
    hide PatchOffset, W;
  }

  lemma {:induction false} InBuffer(a: Layout, size: nat, x: nat, y: nat)
    requires Paintable(a, size) && x < a.dimX && y < a.dimY
    ensures PatchOffset(x, y, a) < size
  {
    hide PatchOffset, Fits;
  }

  lemma {:induction false} LinearNext(a: Layout, i: nat)
    requires a.dimX > 0
    ensures forall k: nat :: LinearHit(a, i + 1, k) <==> LinearHit(a, i, k) || k == LinearOffset(a, i)
  {
    hide PatchOffset, LinearOffset;
    forall k: nat ensures LinearHit(a, i + 1, k) <==> LinearHit(a, i, k) || k == LinearOffset(a, i) {
      if LinearHit(a, i, k) {
        var n: nat :| n < i && k == LinearOffset(a, n);
        assert n < i + 1;
      }
    }
  }

  lemma {:induction false} LinearAll(a: Layout)
    ensures forall k: nat :: LinearHit(a, a.dimX * a.dimY, k) <==> k in AllOffsets(a)
  {
    hide PatchOffset, LinearHit, AllOffsets;
    forall k: nat ensures LinearHit(a, a.dimX * a.dimY, k) <==> k in AllOffsets(a) {
      if LinearHit(a, a.dimX * a.dimY, k) {
        HitIsPixel(a, k);
      }
      if k in AllOffsets(a) {
        PixelIsHit(a, k);
      }
    }
  }

  lemma {:induction false} HitIsPixel(a: Layout, k: nat)
    requires LinearHit(a, a.dimX * a.dimY, k)
    ensures k in AllOffsets(a)
  {
    hide PatchOffset, AllOffsets;
    var n: nat :| n < a.dimX * a.dimY && k == LinearOffset(a, n);
    LinearIsPixel(a, n, n % a.dimX, n / a.dimX);
  }

  lemma {:induction false} LinearIsPixel(a: Layout, n: nat, x: nat, y: nat)
    requires n < a.dimX * a.dimY && a.dimX > 0 && x == n % a.dimX && y == n / a.dimX
    ensures PatchOffset(x, y, a) in AllOffsets(a)
  {
    hide PatchOffset, AllOffsets;
    InRows(n, a.dimX, a.dimY);
    IsPixel(a, x, y);
  }

  lemma {:induction false} IsPixel(a: Layout, x: nat, y: nat)
    requires x < a.dimX && y < a.dimY
    ensures PatchOffset(x, y, a) in AllOffsets(a)
  {
    hide PatchOffset;
  }

  lemma {:induction false} PixelIsHit(a: Layout, k: nat)
    requires k in AllOffsets(a)
    ensures LinearHit(a, a.dimX * a.dimY, k)
  {
    hide PatchOffset;
    var x: nat, y: nat :| x < a.dimX && y < a.dimY && k == PatchOffset(x, y, a);
    LinearIndex(x, y, a.dimX, a.dimY);
    Product(y, a.dimX);
    var n: nat := y * a.dimX + x;
    assert n < a.dimX * a.dimY && k == LinearOffset(a, n);
  }

  // 2d addressing.
  method Paint2dRow(buffer: array<Byte>, a: Layout, pixel: Byte, y: nat, ghost before: seq<Byte>)
    requires Paintable(a, buffer.Length) && y < a.dimY && y % a.stepY == 0
    requires buffer[..] == Painted(before, GridOffsets(a, y), pixel)
    modifies buffer
    ensures buffer[..] == Painted(before, GridOffsets(a, y + a.stepY), pixel)
  {
    hide Paintable, GridOffsets, RowOffsets, Painted, PatchOffset, Format2d;
    RowStarts(a, buffer.Length, y);
    var x := 0;
    while x < a.dimX
      invariant x % a.stepX == 0
      invariant buffer[..] == Painted(before, GridOffsets(a, y) + RowOffsets(a, x, y), pixel)
    {
      RowStep(a, before, buffer[..], pixel, x, y);
      var offset := Format2d(x, y, a);
      buffer[offset.value] := pixel;
      x := x + a.stepX;
    }
    RowsNext(a, x, y);
  }

  method Paint2d(buffer: array<Byte>, a: Layout, pixel: Byte)
    requires Paintable(a, buffer.Length)
    modifies buffer
    ensures buffer[..] == Painted(old(buffer[..]), GridOffsets(a, a.dimY), pixel)
  {
    hide Paintable, GridOffsets, Painted;
    ghost var before := buffer[..];
    GridStarts(a, before, pixel);
    var y := 0;
    while y < a.dimY
      invariant y % a.stepY == 0
      invariant buffer[..] == Painted(before, GridOffsets(a, y), pixel)
    {
      Paint2dRow(buffer, a, pixel, y, before);
      NextOnGrid(y, a.stepY);
      y := y + a.stepY;
    }
    GridEnds(a, y);
  }

  // Direct addressing by the client.
  method PaintDirectRow(buffer: array<Byte>, a: Layout, pixel: Byte, y: nat, ghost before: seq<Byte>)
    requires Paintable(a, buffer.Length) && UnitDivides(a) && y < a.dimY && y % a.stepY == 0
    requires buffer[..] == Painted(before, GridOffsets(a, y), pixel)
    modifies buffer
    ensures buffer[..] == Painted(before, GridOffsets(a, y + a.stepY), pixel)
  {
    hide Paintable, GridOffsets, RowOffsets, Painted, PatchOffset, Direct, UnitDivides;
    RowStarts(a, buffer.Length, y);
    var x := 0;
    while x < a.dimX
      invariant x % a.stepX == 0
      invariant buffer[..] == Painted(before, GridOffsets(a, y) + RowOffsets(a, x, y), pixel)
    {
      RowStep(a, before, buffer[..], pixel, x, y);
      DirectOnGrid(x, y, a, buffer.Length);
      var i := Direct(x, y, a);
      buffer[i] := pixel;
      x := x + a.stepX;
    }
    RowsNext(a, x, y);
  }

  method PaintDirect(buffer: array<Byte>, a: Layout, pixel: Byte)
    requires Paintable(a, buffer.Length) && UnitDivides(a)
    modifies buffer
    ensures buffer[..] == Painted(old(buffer[..]), GridOffsets(a, a.dimY), pixel)
  {
    hide Paintable, GridOffsets, Painted;
    ghost var before := buffer[..];
    GridStarts(a, before, pixel);
    var y := 0;
    while y < a.dimY
      invariant y % a.stepY == 0
      invariant buffer[..] == Painted(before, GridOffsets(a, y), pixel)
    {
      PaintDirectRow(buffer, a, pixel, y, before);
      NextOnGrid(y, a.stepY);
      y := y + a.stepY;
    }
    GridEnds(a, y);
  }

  // Direct addressing with the row's part of the formula taken out of the inner loop.
  method PaintHoistedRow(buffer: array<Byte>, a: Layout, pixel: Byte, y: nat, ghost before: seq<Byte>)
    requires Paintable(a, buffer.Length) && UnitDivides(a) && y < a.dimY && y % a.stepY == 0
    requires buffer[..] == Painted(before, GridOffsets(a, y), pixel)
    modifies buffer
    ensures buffer[..] == Painted(before, GridOffsets(a, y + a.stepY), pixel)
  {
    hide Paintable, GridOffsets, RowOffsets, Painted, PatchOffset, DirectAxis, UnitDivides, W;
    RowStarts(a, buffer.Length, y);
    var j := DirectAxis(a.strideY, y, a.scaleY);
    var x := 0;
    while x < a.dimX
      invariant x % a.stepX == 0
      invariant buffer[..] == Painted(before, GridOffsets(a, y) + RowOffsets(a, x, y), pixel)
    {
      RowStep(a, before, buffer[..], pixel, x, y);
      DirectOnGrid(x, y, a, buffer.Length);
      var i := W(j + DirectAxis(a.strideX, x, a.scaleX));
      buffer[i] := pixel;
      x := x + a.stepX;
    }
    RowsNext(a, x, y);
  }

  method PaintHoisted(buffer: array<Byte>, a: Layout, pixel: Byte)
    requires Paintable(a, buffer.Length) && UnitDivides(a)
    modifies buffer
    ensures buffer[..] == Painted(old(buffer[..]), GridOffsets(a, a.dimY), pixel)
  {
    hide Paintable, GridOffsets, Painted;
    ghost var before := buffer[..];
    GridStarts(a, before, pixel);
    var y := 0;
    while y < a.dimY
      invariant y % a.stepY == 0
      invariant buffer[..] == Painted(before, GridOffsets(a, y), pixel)
    {
      PaintHoistedRow(buffer, a, pixel, y, before);
      NextOnGrid(y, a.stepY);
      y := y + a.stepY;
    }
    GridEnds(a, y);
  }

  // The unit divides scale * step on both axes.
  ghost predicate UnitDivides(a: Layout) {
    a.scaleX * a.stepX % SCALE_UNITY == 0 && a.scaleY * a.stepY % SCALE_UNITY == 0
  }

  // Storing one more pixel of a row.
  lemma {:induction false} RowStep(a: Layout, before: seq<Byte>, now: seq<Byte>, pixel: Byte, x: nat, y: nat)
    requires Paintable(a, |now|) && x < a.dimX && y < a.dimY && x % a.stepX == 0 && y % a.stepY == 0
    requires now == Painted(before, GridOffsets(a, y) + RowOffsets(a, x, y), pixel)
    ensures Format2d(x, y, a) == Some(PatchOffset(x, y, a)) && PatchOffset(x, y, a) < |now|
    ensures now[PatchOffset(x, y, a) := pixel] ==
            Painted(before, GridOffsets(a, y) + RowOffsets(a, x + a.stepX, y), pixel)
    ensures (x + a.stepX) % a.stepX == 0
  {
    hide PatchOffset, Fits, GridOffsets, RowOffsets, Painted;
    var k := PatchOffset(x, y, a);
    RowNext(a, x, y);
    NextOnGrid(x, a.stepX);
    PaintMore(before, GridOffsets(a, y) + RowOffsets(a, x, y), pixel, k);
    assert GridOffsets(a, y) + RowOffsets(a, x, y) + {k} == GridOffsets(a, y) + RowOffsets(a, x + a.stepX, y);
  }

  lemma {:induction false} DirectOnGrid(x: nat, y: nat, a: Layout, size: nat)
    requires Paintable(a, size) && UnitDivides(a)
    requires x < a.dimX && y < a.dimY && x % a.stepX == 0 && y % a.stepY == 0
    ensures Direct(x, y, a) == PatchOffset(x, y, a)
  {
    hide PatchOffset, Direct, Fits;
    var i, j := x / a.stepX, y / a.stepY;
    var unitX, unitY := a.scaleX * a.stepX / SCALE_UNITY, a.scaleY * a.stepY / SCALE_UNITY;
    Product(a.scaleX, a.stepX);
    Product(a.scaleY, a.stepY);
    AddressingsAgree(x, y, a, i, j, unitX, unitY);
  }

  lemma {:induction false} GridStarts(a: Layout, before: seq<Byte>, pixel: Byte)
    requires Paintable(a, |before|)
    ensures 0 < a.stepX && 0 < a.stepY && before == Painted(before, GridOffsets(a, 0), pixel)
    ensures 0 % a.stepX == 0 && 0 % a.stepY == 0
  {
  }

  lemma {:induction false} RowStarts(a: Layout, size: nat, y: nat)
    requires Paintable(a, size)
    ensures 0 < a.stepX && 0 < a.stepY && 0 % a.stepX == 0
    ensures GridOffsets(a, y) + RowOffsets(a, 0, y) == GridOffsets(a, y)
  {
  }

  lemma {:induction false} GridEnds(a: Layout, y: nat)
    requires 0 < a.stepX && 0 < a.stepY && y >= a.dimY
    ensures GridOffsets(a, y) == GridOffsets(a, a.dimY)
  {
  }

  // With scale * step equal to the unit, scaling a coordinate is dividing it by the step.
  lemma {:induction false} ScaleIsDivide(scale: nat, step: nat, x: nat)
    requires 0 < step && scale * step == SCALE_UNITY
    ensures scale * x / SCALE_UNITY == x / step
    ensures x / step * step <= x && (x / step * step) % step == 0 && x / step * step / step == x / step
  {
    var q, r := x / step, x % step;
    assert x == q * step + r;
    Product(q, step);
    Product(scale, r);
    assert scale * (q * step) == q * SCALE_UNITY;
    assert scale * x == scale * (q * step) + scale * r;
    assert scale * (r + 1) <= scale * step;
    ScalePositive(scale, step);
    assert scale * r < SCALE_UNITY;
    DivideIs(scale * x, SCALE_UNITY, q, scale * r);
    DivideIs(q * step, step, q, 0);
  }

  lemma {:induction false} ScalePositive(scale: nat, step: nat)
    requires scale * step == SCALE_UNITY
    ensures scale > 0
  {
  }

  // A pixel between the grid points has the offset of a grid point.
  lemma {:induction false} AliasOf(a: Layout, size: nat, x: nat, y: nat) returns (u: nat, v: nat)
    requires Paintable(a, size) && x < a.dimX && y < a.dimY
    requires a.scaleX * a.stepX == SCALE_UNITY && a.scaleY * a.stepY == SCALE_UNITY
    ensures u < a.dimX && v < a.dimY && u % a.stepX == 0 && v % a.stepY == 0
    ensures PatchOffset(u, v, a) == PatchOffset(x, y, a)
  {
    hide PatchOffset, Direct, Fits;
    u, v := Aliased(a.scaleX, a.stepX, x), Aliased(a.scaleY, a.stepY, y);
    PlainOffsets(x, y, a);
    PlainOffsets(u, v, a);
  }

  // The grid coordinate below x.
  ghost function Aliased(scale: nat, step: nat, x: nat): (u: nat)
    requires 0 < step && scale * step == SCALE_UNITY
    ensures u <= x && u % step == 0 && scale * u / SCALE_UNITY == scale * x / SCALE_UNITY
  {
    ScaleIsDivide(scale, step, x);
    ScaleIsDivide(scale, step, x / step * step);
    x / step * step
  }

  lemma {:induction false} InAllOffsets(a: Layout, k: nat) returns (x: nat, y: nat)
    requires k in AllOffsets(a)
    ensures x < a.dimX && y < a.dimY && k == PatchOffset(x, y, a)
  {
    hide PatchOffset;
    x, y :| x < a.dimX && y < a.dimY && k == PatchOffset(x, y, a);
  }

  lemma {:induction false} InGridOffsets(a: Layout, k: nat) returns (x: nat, y: nat)
    requires 0 < a.stepX && 0 < a.stepY && k in GridOffsets(a, a.dimY)
    ensures x < a.dimX && y < a.dimY && k == PatchOffset(x, y, a)
  {
    hide PatchOffset;
    x, y :| x < a.dimX && y < a.dimY && k == PatchOffset(x, y, a);
  }

  lemma {:induction false} IsGridOffset(a: Layout, u: nat, v: nat)
    requires 0 < a.stepX && 0 < a.stepY && u < a.dimX && v < a.dimY && u % a.stepX == 0 && v % a.stepY == 0
    ensures PatchOffset(u, v, a) in GridOffsets(a, a.dimY)
  {
    hide PatchOffset;
  }

  // The four traversals touch the same bytes: with scale * step equal to the unit, the pixels
  // between the grid points have the offsets of grid points.
  lemma {:induction false} TraversalsTouchSameBytes(a: Layout, size: nat)
    requires Paintable(a, size)
    requires a.scaleX * a.stepX == SCALE_UNITY && a.scaleY * a.stepY == SCALE_UNITY
    ensures AllOffsets(a) == GridOffsets(a, a.dimY) && UnitDivides(a)
  {
    hide PatchOffset, Fits, AllOffsets, GridOffsets;
    forall k | k in AllOffsets(a) ensures k in GridOffsets(a, a.dimY) {
      var x, y := InAllOffsets(a, k);
      var u, v := AliasOf(a, size, x, y);
      IsGridOffset(a, u, v);
    }
    forall k | k in GridOffsets(a, a.dimY) ensures k in AllOffsets(a) {
      var x, y := InGridOffsets(a, k);
      IsPixel(a, x, y);
    }
  }

  // A half-scaled plane off its step grid: the client's formula is one byte further on.
  lemma {:induction false} DirectDiffersOffGrid() returns (a: Layout)
    ensures a == Layout(2, 1, 2, 4, 512, 512, 2, 2) && Fits(1, 0, a)
    ensures PatchOffset(1, 0, a) == 0 && Direct(1, 0, a) == 1
  {
    a := Layout(2, 1, 2, 4, 512, 512, 2, 2);
    PlainOffsets(1, 0, a);
  }

  // The 2d form gives an offset exactly for the pixels of the patch, and the 1d form is the 2d form
  // row by row.
  lemma {:induction false} FormatsCoverPatch(a: Layout, x: nat, y: nat, i: nat)
    requires a.dimX * a.dimY < TWO_32
    ensures Format2d(x, y, a) == None <==> x >= a.dimX || y >= a.dimY
    ensures i >= a.dimX * a.dimY ==> Format1d(i, a) == None
    ensures i < a.dimX * a.dimY ==>
              && a.dimX > 0 && Format2d(i % a.dimX, i / a.dimX, a) != None
              && Format1d(i, a) == Format2d(i % a.dimX, i / a.dimX, a)
  {
    hide PatchOffset, W;
    Product(a.dimX, a.dimY);
    Small(a.dimX * a.dimY);
    if i < a.dimX * a.dimY {
      InRows(i, a.dimX, a.dimY);
      RowByRow(a, i, i % a.dimX, i / a.dimX);
    }
  }

  lemma {:induction false} RowByRow(a: Layout, i: nat, x: nat, y: nat)
    requires a.dimX > 0 && i < W(a.dimX * a.dimY) && x == i % a.dimX && y == i / a.dimX && x < a.dimX && y < a.dimY
    ensures Format1d(i, a) == Format2d(x, y, a) == Some(PatchOffset(x, y, a))
  {
    hide PatchOffset, W;
  }
}
