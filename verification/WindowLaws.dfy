/**
 Which bytes of the patch a window shows: a byte stored where the addressing functions put it shows
 in the samples of its pixel, and in no other.
 */
module WindowLaws {
  import opened Division
  import opened Values
  import opened Addressing
  import opened Window

  // Bytes per pixel.
  ghost predicate HasWidth(format: Format, n: nat) {
    match format
    case U8 => n == 1
    case S16 => n == 2
    case U16 => n == 2
    case S32 => n == 4
    case U32 => n == 4
    case F32 => n == 4
    case OtherFormat => false
  }

  // The sample at column u and row v is taken from the pixel at x, y.
  ghost predicate TakenFrom(r: Request, u: int, v: int, x: nat, y: nat)
    requires 0 < r.addr.dimX && 0 < r.addr.dimY
  {
    if r.border.mode == Constant then u == x && v == y
    else Clamp(u, r.addr.dimX) == x && Clamp(v, r.addr.dimY) == y
  }

  // A patch at full scale, as the addressing functions see it.
  ghost predicate FullScale(r: Request, x: nat, y: nat) {
    r.addr.scaleX == 1024 && r.addr.scaleY == 1024 && Fits(x, y, r.addr)
  }

  ghost function Stored(r: Request, k: nat, value: Byte): Request
    requires k < |r.base|
  {
    r.(base := r.base[k := value])
  }

  lemma {:induction false} OffsetIs(r: Request, x: nat, y: nat)
    requires FullScale(r, x, y)
    ensures PatchOffset(x, y, r.addr) == y * r.addr.strideY + x * r.addr.strideX
  {
    hide PatchOffset, Fits;
    PlainOffsets(x, y, r.addr);
  }

  // Different pixels have no byte in common.
  lemma {:induction false} PixelsApart(r: Request, x: nat, y: nat, u: nat, v: nat)
    requires Sane(r) && Inside(r, x, y) && Inside(r, u, v) && (x, y) != (u, v)
    ensures var p, q := y * r.addr.strideY + x * r.addr.strideX, v * r.addr.strideY + u * r.addr.strideX;
            p + SizeOf(r.format) <= q || q + SizeOf(r.format) <= p
  {
    if y < v || (y == v && x < u) {
      RowMajor(r.addr.strideX, r.addr.strideY, r.addr.dimX, x, y, u, v);
    } else {
      RowMajor(r.addr.strideX, r.addr.strideY, r.addr.dimX, u, v, x, y);
    }
  }

  lemma {:induction false} StoreInPixel(r: Request, x: nat, y: nat, j: nat, value: Byte, u: nat, v: nat)
    requires Sane(r) && Inside(r, x, y) && Inside(r, u, v) && j < SizeOf(r.format)
    ensures 0 <= y * r.addr.strideY + x * r.addr.strideX + j < |r.base|
    ensures var q := Stored(r, y * r.addr.strideY + x * r.addr.strideX + j, value);
            && Sane(q)
            && PixelAt(q, u, v) == if (u, v) == (x, y) then PixelAt(r, u, v)[j := value] else PixelAt(r, u, v)
  {
    OffsetInPatch(r, x, y);
    OffsetInPatch(r, u, v);
    if (u, v) != (x, y) {
      PixelsApart(r, x, y, u, v);
    }
    SliceAfterStore(r.base, y * r.addr.strideY + x * r.addr.strideX, v * r.addr.strideY + u * r.addr.strideX,
                    SizeOf(r.format), j, value);
  }

  lemma {:induction false} SliceAfterStore(base: seq<Byte>, p: nat, q: nat, size: nat, j: nat, value: Byte)
    requires j < size && p + size <= |base| && q + size <= |base|
    requires p == q || p + size <= q || q + size <= p
    ensures base[p + j := value][q..][..size] == if p == q then base[q..][..size][j := value] else base[q..][..size]
  {
  }

  // Storing one byte of the pixel at x, y, where the library's addressing puts that pixel, changes
  // exactly the samples that are taken from it, and these in exactly that byte.
  lemma {:induction false} StoreShows(r: Request, x: nat, y: nat, j: nat, value: Byte, u: int, v: int, n: nat)
    requires Sane(r) && Inside(r, x, y) && FullScale(r, x, y) && HasWidth(r.format, n) && j < n
    ensures PatchOffset(x, y, r.addr) + j < |r.base| && Sane(Stored(r, PatchOffset(x, y, r.addr) + j, value))
    ensures |Sample(r, u, v)| == n
    ensures Sample(Stored(r, PatchOffset(x, y, r.addr) + j, value), u, v) ==
            if TakenFrom(r, u, v, x, y) then Sample(r, u, v)[j := value] else Sample(r, u, v)
  {
    hide PatchOffset, Fits, PixelAt;
    OffsetIs(r, x, y);
    StoreInPixel(r, x, y, j, value, x, y);
    if r.border.mode != Constant {
      StoreInPixel(r, x, y, j, value, Clamp(u, r.addr.dimX), Clamp(v, r.addr.dimY));
    } else if Inside(r, u, v) {
      StoreInPixel(r, x, y, j, value, u, v);
    }
  }

  // So the bytes of a sample are those at the offset of its pixel.
  lemma {:induction false} SampleIs(r: Request, u: int, v: int, x: nat, y: nat, n: nat)
    requires Sane(r) && Inside(r, x, y) && FullScale(r, x, y) && HasWidth(r.format, n) && TakenFrom(r, u, v, x, y)
    ensures PatchOffset(x, y, r.addr) + n <= |r.base|
    ensures Sample(r, u, v) == r.base[PatchOffset(x, y, r.addr)..][..n]
  {
    hide PatchOffset, Fits, Sample, TakenFrom;
    StoreShows(r, x, y, n - 1, 0, u, v, n);
    forall j: nat | j < n
      ensures |Sample(r, u, v)| == n && PatchOffset(x, y, r.addr) + j < |r.base|
      ensures Sample(r, u, v)[j] == r.base[PatchOffset(x, y, r.addr) + j]
    {
      var k := PatchOffset(x, y, r.addr) + j;
      StoreShows(r, x, y, j, 0, u, v, n);
      StoreShows(r, x, y, j, r.base[k], u, v, n);
      assert r.base[k := r.base[k]] == r.base;
      assert Stored(r, k, r.base[k]) == r;
    }
  }

  // Outside the patch, in constant mode, a sample is the first bytes of the constant.
  lemma {:induction false} OutsideIsConstant(r: Request, u: int, v: int, n: nat)
    requires Sane(r) && r.border.mode == Constant && HasWidth(r.format, n)
    requires !(0 <= u < r.addr.dimX && 0 <= v < r.addr.dimY)
    ensures |Sample(r, u, v)| == n && forall j: nat | j < n :: Sample(r, u, v)[j] == r.border.constant[j]
  {
  }
}
