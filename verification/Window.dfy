/**
 The border-aware copy of a window of pixels around a centre.  The patch is a sequence of bytes; a
 pixel is the bytes of its value.
 */
module Window {
  import opened Division
  import opened Addressing
  import opened Values

  const TWO_31: int := 0x8000_0000

  type Element = seq<Byte>

  datatype Format = U8 | S16 | U16 | S32 | U32 | F32 | OtherFormat

  datatype Mode = Undefined | Constant | Replicate | OtherMode

  // The constant value is a union of sixteen bytes.
  datatype Border = Border(mode: Mode, constant: seq<Byte>)

  datatype Request = Request(base: seq<Byte>, addr: Layout, border: Border, format: Format,
                             centerX: nat, centerY: nat, radiusX: nat, radiusY: nat)

  // Bytes per pixel; zero where the source aborts.
  function SizeOf(format: Format): nat {
    match format
    case U8 => 1
    case S16 => 2
    case U16 => 2
    case S32 => 4
    case U32 => 4
    case F32 => 4
    case OtherFormat => 0
  }

  // Conversion of an unsigned sum to vx_int32.
  function ToInt32(x: int): (r: int)
    ensures -TWO_31 <= x < TWO_31 ==> r == x
  {
    var u := x % TWO_32;
    if u < TWO_31 then u else u - TWO_32
  }

  // A patch with room for its rows and pixels, and no overflow in 32-bit arithmetic.
  ghost predicate Sane(r: Request) {
    && 1 <= r.addr.dimX < TWO_31 && 1 <= r.addr.dimY < TWO_31
    && r.centerX + r.radiusX < TWO_31 && r.centerY + r.radiusY < TWO_31
    && Slots(r) < TWO_32
    && SizeOf(r.format) <= r.addr.strideX && r.addr.strideX * r.addr.dimX <= r.addr.strideY
    && r.addr.strideY * r.addr.dimY <= |r.base| && r.addr.strideY * r.addr.dimY < TWO_31
    && |r.border.constant| == 16
  }

  function Columns(r: Request): nat { 2 * r.radiusX + 1 }

  function Slots(r: Request): nat {
    Product(2 * r.radiusY + 1, Columns(r));
    (2 * r.radiusY + 1) * Columns(r)
  }

  ghost predicate Inside(r: Request, x: int, y: int) {
    0 <= x < r.addr.dimX && 0 <= y < r.addr.dimY
  }

  // A coordinate clamped to an axis.
  ghost function Clamp(v: int, n: nat): (c: int)
    requires n > 0
    ensures 0 <= c < n
    ensures forall w: nat | w < n :: Distance(v, c) <= Distance(v, w)
    ensures 0 <= v < n ==> c == v
  {
    if v < 0 then 0 else if v >= n then n - 1 else v
  }

  ghost function Distance(a: int, b: int): nat {
    if a < b then b - a else a - b
  }

  // The bytes of the pixel in column x and row y.
  ghost function PixelAt(r: Request, x: int, y: int): (e: Element)
    requires Sane(r) && Inside(r, x, y)
    ensures |e| == SizeOf(r.format)
  {
    OffsetInPatch(r, x, y);
    r.base[y * r.addr.strideY + x * r.addr.strideX..][..SizeOf(r.format)]
  }

  // Every pixel of the patch lies in its memory.
  lemma {:induction false} OffsetInPatch(r: Request, x: int, y: int)
    requires Sane(r) && Inside(r, x, y)
    ensures 0 <= y * r.addr.strideY && 0 <= x * r.addr.strideX
    ensures y * r.addr.strideY + x * r.addr.strideX + SizeOf(r.format) <= r.addr.strideY * r.addr.dimY <= |r.base|
  {
    var sx, sy := r.addr.strideX, r.addr.strideY;
    Product(sx, r.addr.dimX);
    Product(y, sy);
    Product(x, sx);
    MoreRows(x + 1, r.addr.dimX, sx);
    MoreRows(y + 1, r.addr.dimY, sy);
    assert (x + 1) * sx == x * sx + sx && (y + 1) * sy == y * sy + sy;
  }

  // What belongs in the slot for column x and row y of the plane.
  ghost function Sample(r: Request, x: int, y: int): Element
    requires Sane(r)
  {
    if r.border.mode != Constant then PixelAt(r, Clamp(x, r.addr.dimX), Clamp(y, r.addr.dimY))
    else if Inside(r, x, y) then PixelAt(r, x, y)
    else r.border.constant[..SizeOf(r.format)]
  }

  ghost predicate InWindow(r: Request, kx: int, ky: int) {
    0 <= kx + r.radiusX < Columns(r) && 0 <= ky + r.radiusY < 2 * r.radiusY + 1
  }

  // The window, row by row.
  ghost function Region(r: Request): (w: seq<Element>)
    requires Sane(r)
    ensures |w| == Slots(r)
  {
    seq(Slots(r), k requires 0 <= k < Slots(r) =>
      Sample(r, r.centerX - r.radiusX + k % Columns(r), r.centerY - r.radiusY + k / Columns(r)))
  }

  // Slot kx, ky of the window is in row-major position.
  lemma {:induction false} RegionAt(r: Request, kx: int, ky: int)
    requires Sane(r) && InWindow(r, kx, ky)
    ensures 0 <= (ky + r.radiusY) * Columns(r) + kx + r.radiusX < Slots(r)
    ensures Region(r)[(ky + r.radiusY) * Columns(r) + kx + r.radiusX] == Sample(r, r.centerX + kx, r.centerY + ky)
  {
    hide Sane, Sample;
    Product(ky + r.radiusY, Columns(r));
    LinearIndex(kx + r.radiusX, ky + r.radiusY, Columns(r), 2 * r.radiusY + 1);
  }

  // ---------------------------------------------------------------- the copy

  class Destination {
    const slots: array<Element>
    // The slots stored so far, in order.
    ghost var stored: seq<nat>

    constructor (slots: array<Element>)
      ensures this.slots == slots && stored == []
    {
      this.slots, this.stored := slots, [];
    }

    method Put(index: nat, value: Element)
      requires index < slots.Length
      modifies `stored, slots
      ensures slots[..] == old(slots[..])[index := value]
      ensures stored == old(stored) + [index]
    {
      slots[index] := value;
      stored := stored + [index];
    }
  }

  ghost function UpTo(n: nat): (s: seq<nat>)
    ensures |s| == n && forall k | 0 <= k < n :: s[k] == k
  {
    seq(n, k requires 0 <= k => k)
  }

  // The first n slots hold the window, each stored once and in order; the others are untouched.
  ghost predicate Filled(r: Request, d: Destination, before: seq<Element>, w: seq<nat>, n: nat)
    requires Sane(r)
    reads d, d.slots
  {
    && n <= Slots(r) <= |before| == d.slots.Length
    && d.slots[..] == Region(r)[..n] + before[n..]
    && d.stored == w + UpTo(n)
  }

  lemma {:induction false} FilledNext(r: Request, before: seq<Element>, n: nat, w: seq<nat>)
    requires Sane(r) && n < Slots(r) <= |before|
    ensures (Region(r)[..n] + before[n..])[n := Region(r)[n]] == Region(r)[..n + 1] + before[n + 1..]
    ensures w + UpTo(n) + [n] == w + UpTo(n + 1)
  {
    hide Sane, Sample, Region;
  }

  // The position of slot kx, ky.
  ghost function SlotOf(r: Request, kx: int, ky: int): (n: nat)
    requires 0 <= kx + r.radiusX && 0 <= ky + r.radiusY
  {
    Product(ky + r.radiusY, Columns(r));
    (ky + r.radiusY) * Columns(r) + kx + r.radiusX
  }

  lemma {:induction false} NextRow(r: Request, ky: int)
    requires 0 <= ky + r.radiusY
    ensures SlotOf(r, r.radiusX + 1, ky) == SlotOf(r, -(r.radiusX as int), ky + 1)
  {
  }

  // The switch on the format: loads from the patch, or takes the constant.
  method Fetch(r: Request, useConstant: bool, x: int, y: int) returns (ok: bool, value: Element)
    requires Sane(r) && (useConstant || Inside(r, x, y))
    ensures ok <==> r.format != OtherFormat
    ensures ok ==> value == if useConstant then r.border.constant[..SizeOf(r.format)] else PixelAt(r, x, y)
  {
    if r.format == OtherFormat {
      return false, [];
    }
    var size := SizeOf(r.format);
    if useConstant {
      return true, r.border.constant[..size];
    }
    OffsetInPatch(r, x, y);
    return true, r.base[y * r.addr.strideY + x * r.addr.strideX..][..size];
  }

  // Stores in the slot for kx, ky.
  method Store(r: Request, d: Destination, kx: int, ky: int, destIndex: nat, value: Element,
               ghost before: seq<Element>, ghost w: seq<nat>)
    requires Sane(r) && InWindow(r, kx, ky) && destIndex == SlotOf(r, kx, ky)
    requires Filled(r, d, before, w, destIndex) && value == Sample(r, r.centerX + kx, r.centerY + ky)
    modifies d`stored, d.slots
    ensures Filled(r, d, before, w, destIndex + 1)
  {
    hide Sane, Sample, Region;
    RegionAt(r, kx, ky);
    FilledNext(r, before, destIndex, w);
    d.Put(destIndex, value);
  }

  // One pixel in the replicating modes.
  method ReplicatePixel(r: Request, d: Destination, kx: int, ky: int, y: int, destIndex: nat,
                        ghost before: seq<Element>, ghost w: seq<nat>)
    returns (ok: bool)
    requires Sane(r) && InWindow(r, kx, ky) && destIndex == SlotOf(r, kx, ky) && r.border.mode != Constant
    requires y == Clamp(r.centerY + ky, r.addr.dimY)
    requires Filled(r, d, before, w, destIndex)
    modifies d`stored, d.slots
    ensures ok <==> r.format != OtherFormat
    ensures ok ==> Filled(r, d, before, w, destIndex + 1)
    ensures !ok ==> d.slots[..] == old(d.slots[..]) && d.stored == old(d.stored)
  {
    hide Filled, PixelAt, SlotOf;
    var width := ToInt32(r.addr.dimX);
    var x := ToInt32(r.centerX + kx);
    x := if x < 0 then 0 else if x >= width then width - 1 else x;
    var value;
    ok, value := Fetch(r, false, x, y);
    if ok {
      Store(r, d, kx, ky, destIndex, value, before, w);
    }
  }

  // One pixel in the constant mode.
  method ConstantPixel(r: Request, d: Destination, kx: int, ky: int, y: int, outside: bool, destIndex: nat,
                       ghost before: seq<Element>, ghost w: seq<nat>)
    returns (ok: bool)
    requires Sane(r) && InWindow(r, kx, ky) && destIndex == SlotOf(r, kx, ky) && r.border.mode == Constant
    requires y == r.centerY + ky && outside == !(0 <= y < r.addr.dimY)
    requires Filled(r, d, before, w, destIndex)
    modifies d`stored, d.slots
    ensures ok <==> r.format != OtherFormat
    ensures ok ==> Filled(r, d, before, w, destIndex + 1)
    ensures !ok ==> d.slots[..] == old(d.slots[..]) && d.stored == old(d.stored)
  {
    hide Filled, PixelAt, SlotOf;
    var width := ToInt32(r.addr.dimX);
    var x := ToInt32(r.centerX + kx);
    var ccase := outside || x < 0 || x >= width;
    var value;
    ok, value := Fetch(r, ccase, x, y);
    if ok {
      Store(r, d, kx, ky, destIndex, value, before, w);
    }
  }

  // One row in the replicating modes.
  method ReplicateRow(r: Request, d: Destination, ky: int, start: nat, ghost before: seq<Element>, ghost w: seq<nat>)
    returns (ok: bool, destIndex: nat)
    requires Sane(r) && InWindow(r, 0, ky) && start == SlotOf(r, -(r.radiusX as int), ky) && r.border.mode != Constant
    requires Filled(r, d, before, w, start)
    modifies d`stored, d.slots
    ensures ok <==> r.format != OtherFormat
    ensures ok ==> destIndex == SlotOf(r, r.radiusX + 1, ky) && Filled(r, d, before, w, destIndex)
    ensures !ok ==> d.slots[..] == old(d.slots[..]) && d.stored == old(d.stored)
  {
    hide Filled, Region, Sample;
    var height := ToInt32(r.addr.dimY);
    var y := ToInt32(r.centerY + ky);
    y := if y < 0 then 0 else if y >= height then height - 1 else y;
    destIndex := start;
    var kx: int := -(r.radiusX as int);
    while kx <= r.radiusX
      invariant 0 <= kx + r.radiusX <= Columns(r) && destIndex == SlotOf(r, kx, ky)
      invariant Filled(r, d, before, w, destIndex)
      invariant kx + r.radiusX > 0 ==> r.format != OtherFormat
      invariant kx + r.radiusX == 0 ==> d.slots[..] == old(d.slots[..]) && d.stored == old(d.stored)
    {
      ok := ReplicatePixel(r, d, kx, ky, y, destIndex, before, w);
      if !ok {
        return false, destIndex;
      }
      kx, destIndex := kx + 1, destIndex + 1;
    }
    return true, destIndex;
  }

  // One row in the constant mode.
  method ConstantRow(r: Request, d: Destination, ky: int, start: nat, ghost before: seq<Element>, ghost w: seq<nat>)
    returns (ok: bool, destIndex: nat)
    requires Sane(r) && InWindow(r, 0, ky) && start == SlotOf(r, -(r.radiusX as int), ky) && r.border.mode == Constant
    requires Filled(r, d, before, w, start)
    modifies d`stored, d.slots
    ensures ok <==> r.format != OtherFormat
    ensures ok ==> destIndex == SlotOf(r, r.radiusX + 1, ky) && Filled(r, d, before, w, destIndex)
    ensures !ok ==> d.slots[..] == old(d.slots[..]) && d.stored == old(d.stored)
  {
    hide Filled, Region, Sample;
    var height := ToInt32(r.addr.dimY);
    var y := ToInt32(r.centerY + ky);
    var outside := y < 0 || y >= height;
    destIndex := start;
    var kx: int := -(r.radiusX as int);
    while kx <= r.radiusX
      invariant 0 <= kx + r.radiusX <= Columns(r) && destIndex == SlotOf(r, kx, ky)
      invariant Filled(r, d, before, w, destIndex)
      invariant kx + r.radiusX > 0 ==> r.format != OtherFormat
      invariant kx + r.radiusX == 0 ==> d.slots[..] == old(d.slots[..]) && d.stored == old(d.stored)
    {
      ok := ConstantPixel(r, d, kx, ky, y, outside, destIndex, before, w);
      if !ok {
        return false, destIndex;
      }
      kx, destIndex := kx + 1, destIndex + 1;
    }
    return true, destIndex;
  }

  // vxReadRectangle; where the source aborts, for a mode or a format it does not know, the result
  // is false and nothing has been stored.
  method ReadRectangle(r: Request, d: Destination) returns (ok: bool)
    requires Sane(r) && Slots(r) <= d.slots.Length
    modifies d`stored, d.slots
    ensures ok <==> r.border.mode != OtherMode && r.format != OtherFormat
    ensures ok ==> d.slots[..] == Region(r) + old(d.slots[Slots(r)..])
    ensures ok ==> d.stored == old(d.stored) + UpTo(Slots(r))
    ensures !ok ==> d.slots[..] == old(d.slots[..]) && d.stored == old(d.stored)
  {
    hide Sane, Filled, Region, SlotOf;
    if r.border.mode == OtherMode {
      return false;
    }
    ghost var before, w := d.slots[..], d.stored;
    FilledStarts(r, d);
    var destIndex: nat := 0;
    var ky: int := -(r.radiusY as int);
    while ky <= r.radiusY
      invariant 0 <= ky + r.radiusY <= 2 * r.radiusY + 1 && destIndex == SlotOf(r, -(r.radiusX as int), ky)
      invariant Filled(r, d, before, w, destIndex)
      invariant ky + r.radiusY > 0 ==> r.format != OtherFormat
      invariant ky + r.radiusY == 0 ==> d.slots[..] == old(d.slots[..]) && d.stored == old(d.stored)
    {
      if r.border.mode == Constant {
        ok, destIndex := ConstantRow(r, d, ky, destIndex, before, w);
      } else {
        ok, destIndex := ReplicateRow(r, d, ky, destIndex, before, w);
      }
      if !ok {
        return false;
      }
      NextRow(r, ky);
      ky := ky + 1;
    }
    FilledEnds(r, d, before, w);
    return true;
  }

  lemma {:induction false} FilledStarts(r: Request, d: Destination)
    requires Sane(r) && Slots(r) <= d.slots.Length
    ensures Filled(r, d, d.slots[..], d.stored, 0) && SlotOf(r, -(r.radiusX as int), -(r.radiusY as int)) == 0
  {
  }

  lemma {:induction false} FilledEnds(r: Request, d: Destination, before: seq<Element>, w: seq<nat>)
    requires Sane(r) && Slots(r) <= d.slots.Length
    requires Filled(r, d, before, w, SlotOf(r, -(r.radiusX as int), r.radiusY + 1))
    ensures d.slots[..] == Region(r) + before[Slots(r)..] && d.stored == w + UpTo(Slots(r))
  {
    hide Sane, Region;
    var n := SlotOf(r, -(r.radiusX as int), r.radiusY + 1);
    assert n == Slots(r);
    assert Region(r)[..n] == Region(r);
  }

  // ---------------------------------------------------------------- laws

  // The whole window lies in the patch.
  ghost predicate WindowInside(r: Request) {
    && r.radiusX <= r.centerX && r.centerX + r.radiusX < r.addr.dimX
    && r.radiusY <= r.centerY && r.centerY + r.radiusY < r.addr.dimY
  }

  // A window that lies in the patch is the same in every border mode, pixels of the patch only.
  lemma {:induction false} InsideNeedsNoBorder(r: Request, border: Border)
    requires Sane(r) && WindowInside(r) && |border.constant| == 16
    ensures Region(r) == Region(r.(border := border))
    ensures forall kx: int, ky: int | InWindow(r, kx, ky) ::
              Inside(r, r.centerX + kx, r.centerY + ky) &&
              Sample(r, r.centerX + kx, r.centerY + ky) == PixelAt(r, r.centerX + kx, r.centerY + ky)
  {
    hide PixelAt, Sample, Sane, Slots;
    SaneToo(r, border);
    forall k: nat | k < Slots(r) ensures Region(r)[k] == Region(r.(border := border))[k] {
      SlotSame(r, border, k);
    }
    forall kx: int, ky: int | InWindow(r, kx, ky)
      ensures Inside(r, r.centerX + kx, r.centerY + ky)
      ensures Sample(r, r.centerX + kx, r.centerY + ky) == PixelAt(r, r.centerX + kx, r.centerY + ky)
    {
      SamePixel(r, border, r.centerX + kx, r.centerY + ky);
    }
  }

  lemma {:induction false} SlotIn(r: Request, k: nat)
    requires k < Slots(r)
    ensures 0 <= k % Columns(r) < Columns(r) && 0 <= k / Columns(r) < 2 * r.radiusY + 1
  {
    InRows(k, Columns(r), 2 * r.radiusY + 1);
  }

  lemma {:induction false} SlotSame(r: Request, border: Border, k: nat)
    requires Sane(r) && WindowInside(r) && Sane(r.(border := border)) && |border.constant| == 16
    requires k < Slots(r) == Slots(r.(border := border))
    ensures Region(r)[k] == Region(r.(border := border))[k]
  {
    hide PixelAt, Sample, Sane, Slots;
    var x, y := k % Columns(r), k / Columns(r);
    SlotIn(r, k);
    SamePixel(r, border, r.centerX - r.radiusX + x, r.centerY - r.radiusY + y);
  }

  lemma {:induction false} SaneToo(r: Request, border: Border)
    requires Sane(r) && |border.constant| == 16
    ensures Sane(r.(border := border)) && Slots(r.(border := border)) == Slots(r)
  {
  }

  lemma {:induction false} SamePixel(r: Request, border: Border, x: int, y: int)
    requires Sane(r) && |border.constant| == 16 && Inside(r, x, y)
    ensures Sane(r.(border := border)) && Sample(r, x, y) == Sample(r.(border := border), x, y) == PixelAt(r, x, y)
  {
  }

  // Moving the centre one column to the right shifts the window: neighbouring windows share all
  // columns but one, in every border mode and also outside the patch.
  lemma {:induction false} WindowsOverlap(r: Request, kx: int, ky: int)
    requires Sane(r) && Sane(r.(centerX := r.centerX + 1)) && r.format != OtherFormat
    requires InWindow(r, kx, ky) && InWindow(r, kx + 1, ky)
    ensures SlotOf(r, kx, ky) + 1 < Slots(r)
    ensures Region(r.(centerX := r.centerX + 1))[SlotOf(r, kx, ky)] == Region(r)[SlotOf(r, kx, ky) + 1]
  {
    hide Sane, Sample, Region;
    var q := r.(centerX := r.centerX + 1);
    RegionAt(q, kx, ky);
    RegionAt(r, kx + 1, ky);
    SameSample(r, r.centerX + 1, r.centerX + kx + 1, r.centerY + ky);
  }

  lemma {:induction false} SameSample(r: Request, centerX: nat, x: int, y: int)
    requires Sane(r) && Sane(r.(centerX := centerX))
    ensures Sample(r, x, y) == Sample(r.(centerX := centerX), x, y)
  {
  }
}
