/**
 The Venus buffer arithmetic of include/media/msm_media_info.h, on 32-bit unsigned numbers.
 Numbers are integers and every operation reduces modulo 2^32 as the code does; the alignment macro's
 bit mask is taken bit by bit.
 */
module VenusBuffers {
  import opened Arithmetic

  const TWO32 := 0x1_0000_0000

  function Wrap(n: int): nat {
    n % TWO32
  }

  function Pow2(k: nat): (p: nat)
    ensures p > 0
  {
    if k == 0 then 1 else 2 * Pow2(k - 1)
  }

  /** Bitwise and. */
  function And(x: nat, y: nat): nat {
    if x == 0 || y == 0 then 0 else 2 * And(x / 2, y / 2) + (x % 2) * (y % 2)
  }

  /** Bitwise complement of a 32-bit number. */
  function Not(x: nat): nat
    requires x < TWO32
  {
    TWO32 - 1 - x
  }

  /** MSM_MEDIA_ALIGN. */
  function MediaAlign(size: nat, align: nat): nat
    requires 0 < align < TWO32
  {
    And(Wrap(size + (align - 1)), Not(align - 1))
  }

  // ----- the mask is a round-up

  /** The least multiple of m that is not below n. */
  ghost predicate IsRoundUp(n: nat, m: nat, r: nat) {
    m > 0 && r % m == 0 && n <= r < n + m
  }

  lemma {:induction false} AndWithOnes(y: nat, n: nat)
    requires y < Pow2(n)
    ensures And(y, Pow2(n) - 1) == y
  {
    if n > 0 && y > 0 {
      AndWithOnes(y / 2, n - 1);
      assert (Pow2(n) - 1) / 2 == Pow2(n - 1) - 1 && (Pow2(n) - 1) % 2 == 1;
    }
  }

  lemma {:induction false} Pow2Monotone(k: nat, n: nat)
    requires k <= n
    ensures Pow2(k) <= Pow2(n)
  {
    if k < n {
      Pow2Monotone(k, n - 1);
    }
  }

  lemma HalveModulus(y: nat, m: nat)
    requires m > 0
    ensures y % (2 * m) == 2 * ((y / 2) % m) + y % 2
  {
    var (q, r) := ((y / 2) / m, (y / 2) % m);
    var x := 2 * r + y % 2;
    assert y / 2 == m * q + r;
    assert 2 * (m * q) == (2 * m) * q;
    assert y == (2 * m) * q + x && x < 2 * m;
    DivModUnique(y, 2 * m, q, x);
  }

  /** And with the ones from bit k up to bit n clears the k low bits. */
  lemma {:induction false} AndClearsLowBits(y: nat, k: nat, n: nat)
    requires k <= n && y < Pow2(n)
    ensures Pow2(k) <= Pow2(n) && And(y, Pow2(n) - Pow2(k)) == y - y % Pow2(k)
  {
    Pow2Monotone(k, n);
    if k == 0 {
      AndWithOnes(y, n);
    } else {
      AndClearsLowBits(y / 2, k - 1, n - 1);
      HalveModulus(y, Pow2(k - 1));
      var mask := Pow2(n) - Pow2(k);
      assert mask / 2 == Pow2(n - 1) - Pow2(k - 1) && mask % 2 == 0;
      if y > 0 && mask == 0 {
        AndZero(y / 2);
      }
    }
  }

  lemma AndZero(y: nat)
    ensures And(y, 0) == 0
  {
  }

  lemma Pow2Of32()
    ensures Pow2(32) == TWO32 && Pow2(4) == 16 && Pow2(5) == 32 && Pow2(7) == 128 && Pow2(12) == 4096
  {
    assert Pow2(12) == 4096;
    assert Pow2(16) == 65536;
    assert Pow2(24) == 0x100_0000;
  }

  lemma ModRemainder(y: nat, m: nat)
    requires m > 0
    ensures (y - y % m) % m == 0
  {
    var q := y / m;
    assert y == m * q + y % m;
    DivModUnique(y - y % m, m, q, 0);
  }

  /** For every power of two and every 32-bit size the mask form is the least multiple that is not
      smaller, if the addition in it does not overflow; if it does, the result is 0. */
  lemma MediaAlignRoundsUp(size: nat, k: nat)
    requires k < 32 && size < TWO32
    ensures Pow2(k) < TWO32
    ensures if size + Pow2(k) - 1 < TWO32
            then IsRoundUp(size, Pow2(k), MediaAlign(size, Pow2(k)))
            else MediaAlign(size, Pow2(k)) == 0
  {
    hide And, Pow2, Wrap;
    var m := Pow2(k);
    var y := size + (m - 1);
    SmallPower(k);
    if y < TWO32 {
      WrapSmall(y);
      AndClearsLowBits(y, k, 32);
      ModRemainder(y, m);
    } else {
      WrapOnce(y);
      AndClearsLowBits(y - TWO32, k, 32);
      DivModUnique(y - TWO32, m, 0, y - TWO32);
    }
  }

  lemma WrapOnce(n: int)
    requires TWO32 <= n < 2 * TWO32
    ensures Wrap(n) == n - TWO32
  {
  }

  lemma SmallPower(k: nat)
    requires k < 32
    ensures Pow2(k) < TWO32 == Pow2(32)
  {
    Pow2Of32();
    Pow2Monotone(k, 31);
    assert Pow2(32) == 2 * Pow2(31);
  }

  lemma WrapSmall(n: int)
    requires 0 <= n < TWO32
    ensures Wrap(n) == n
  {
  }

  lemma RoundUpIsLeast(n: nat, m: nat, r: nat, other: nat)
    requires IsRoundUp(n, m, r) && other % m == 0 && n <= other
    ensures r <= other
  {
    var (p, q) := (r / m, other / m);
    assert r == m * p && other == m * q;
    assert m * (p - q) == m * p - m * q;
    if q < p {
      MultipleAtLeast(m, p - q);
    }
  }

  // ----- strides and scanlines

  datatype ColorFormat = NV12 | NV21 | NV12_MVTB | Unknown

  function YStride(format: ColorFormat, width: int): nat {
    if width == 0 || format.Unknown? then 0 else MediaAlign(Wrap(width), 128)
  }

  function UvStride(format: ColorFormat, width: int): nat {
    if width == 0 || format.Unknown? then 0 else MediaAlign(Wrap(width), 128)
  }

  function YScanlines(format: ColorFormat, height: int): nat {
    if height == 0 || format.Unknown? then 0 else MediaAlign(Wrap(height), 32)
  }

  function UvScanlines(format: ColorFormat, height: int): nat {
    if height == 0 || format.Unknown? then 0 else MediaAlign(Wrap((height + 1) / 2), 16)
  }

  function BufferSize(format: ColorFormat, width: int, height: int): nat {
    if width == 0 || height == 0 || format.Unknown? then 0
    else
      var yPlane := Wrap(YStride(format, width) * YScanlines(format, height));
      var uvPlane := Wrap(Wrap(UvStride(format, width) * UvScanlines(format, height)) + 4096);
      var size := if format.NV12_MVTB? then Wrap(Wrap(2 * Wrap(yPlane + uvPlane)) + 8192)
                  else Wrap(Wrap(yPlane + uvPlane) + 8192);
      MediaAlign(size, 4096)
  }

  function View2Offset(format: ColorFormat, width: int, height: int): nat {
    if width == 0 || height == 0 || !format.NV12_MVTB? then 0
    else
      Wrap(Wrap(YStride(format, width) * YScanlines(format, height)) +
           Wrap(UvStride(format, width) * UvScanlines(format, height)))
  }

  /** What the macro makes of a 32-bit number: rounded up, or 0 when that does not fit. */
  ghost predicate IsAligned(n: nat, m: nat, r: nat) {
    if n + m - 1 < TWO32 then IsRoundUp(n, m, r) else r == 0
  }

  lemma MediaAlignAligns(size: nat)
    requires size < TWO32
    ensures IsAligned(size, 16, MediaAlign(size, 16)) && IsAligned(size, 32, MediaAlign(size, 32))
    ensures IsAligned(size, 128, MediaAlign(size, 128)) && IsAligned(size, 4096, MediaAlign(size, 4096))
  {
    hide MediaAlign, Pow2, IsRoundUp;
    Pow2Of32();
    MediaAlignRoundsUp(size, 4);
    MediaAlignRoundsUp(size, 5);
    MediaAlignRoundsUp(size, 7);
    MediaAlignRoundsUp(size, 12);
  }

  /** For every width, taken as unsigned, both strides are the width aligned to 128. */
  lemma StridesRoundUp(format: ColorFormat, width: int)
    requires width != 0 && !format.Unknown?
    ensures IsAligned(Wrap(width), 128, YStride(format, width)) && UvStride(format, width) == YStride(format, width)
    ensures 0 < width < 0x8000_0000 ==> IsRoundUp(width, 128, YStride(format, width))
  {
    hide MediaAlign, IsRoundUp;
    MediaAlignAligns(Wrap(width));
  }

  /** For every height, the lines are the height aligned to 32 and half the height, rounded up, to 16. */
  lemma ScanlinesRoundUp(format: ColorFormat, height: int)
    requires height != 0 && !format.Unknown?
    ensures IsAligned(Wrap(height), 32, YScanlines(format, height))
    ensures IsAligned(Wrap((height + 1) / 2), 16, UvScanlines(format, height))
    ensures 0 < height < 0x8000_0000 ==>
              && IsRoundUp(height, 32, YScanlines(format, height))
              && IsRoundUp((height + 1) / 2, 16, UvScanlines(format, height))
  {
    hide MediaAlign, IsRoundUp;
    MediaAlignAligns(Wrap(height));
    MediaAlignAligns(Wrap((height + 1) / 2));
  }

  /** For every positive height the luma plane has exactly twice the lines of the chroma plane. */
  lemma ScanlinesRatio(format: ColorFormat, height: int)
    requires 0 < height < 0x8000_0000 && !format.Unknown?
    ensures YScanlines(format, height) == 2 * UvScanlines(format, height)
  {
    hide YScanlines, UvScanlines;
    ScanlinesRoundUp(format, height);
    var (y, uv) := (YScanlines(format, height), UvScanlines(format, height));
    var (p, q) := (y / 32, uv / 16);
    assert y == 32 * p && uv == 16 * q;
  }

  lemma ProductBound(a: nat, b: nat, m: nat, n: nat)
    requires a <= m && b <= n
    ensures a * b <= m * n
  {
    assert a * b <= m * b by {
      assert m * b == a * b + (m - a) * b;
    }
    assert m * n == m * b + m * (n - b);
  }

  /** A zero dimension or an unknown format gives zero, and only a two-view format has a second view. */
  lemma InvalidGivesZero(format: ColorFormat, width: int, height: int)
    ensures width == 0 || format.Unknown? ==> YStride(format, width) == 0 && UvStride(format, width) == 0
    ensures height == 0 || format.Unknown? ==> YScanlines(format, height) == 0 && UvScanlines(format, height) == 0
    ensures width == 0 || height == 0 || format.Unknown? ==> BufferSize(format, width, height) == 0
    ensures width == 0 || height == 0 || !format.NV12_MVTB? ==> View2Offset(format, width, height) == 0
  {
  }

  // ----- buffers

  function Plane(stride: nat, scanlines: nat): nat {
    stride * scanlines
  }

  /** The size of one view: its luma and chroma planes. */
  function ViewSize(format: ColorFormat, width: int, height: int): nat {
    Plane(YStride(format, width), YScanlines(format, height)) + Plane(UvStride(format, width), UvScanlines(format, height))
  }

  /** Where the last view ends. */
  function ViewsEnd(format: ColorFormat, width: int, height: int): nat {
    if format.NV12_MVTB? then 2 * ViewSize(format, width, height) else ViewSize(format, width, height)
  }

  /** The unreduced sum that the buffer size is the page-aligned form of. */
  function Total(format: ColorFormat, width: int, height: int): nat {
    ViewsEnd(format, width, height) + (if format.NV12_MVTB? then 2 * 4096 else 4096) + 8192
  }

  lemma WrapShift(x: int, q: int)
    ensures Wrap(x + q * TWO32) == Wrap(x)
  {
  }

  /** Reducing a summand, or what is doubled, early does not change the result. */
  lemma WrapEarly(x: int, y: int)
    ensures Wrap(Wrap(x) + y) == Wrap(x + y) && Wrap(x + Wrap(y)) == Wrap(x + y) && Wrap(2 * Wrap(x)) == Wrap(2 * x)
  {
    var (p, q) := (x / TWO32, y / TWO32);
    assert x == Wrap(x) + p * TWO32 && y == Wrap(y) + q * TWO32;
    hide Wrap;
    WrapShift(Wrap(x) + y, p);
    WrapShift(x + Wrap(y), q);
    WrapShift(2 * Wrap(x), 2 * p);
  }

  /** However often its parts are reduced, the buffer size is the aligned form of the total. */
  lemma BufferSizeAlignsTotal(format: ColorFormat, width: int, height: int)
    requires width != 0 && height != 0 && !format.Unknown?
    ensures BufferSize(format, width, height) == MediaAlign(Wrap(Total(format, width, height)), 4096)
  {
    hide YStride, UvStride, YScanlines, UvScanlines, MediaAlign, Wrap;
    var y := YStride(format, width) * YScanlines(format, height);
    var uv := UvStride(format, width) * UvScanlines(format, height);
    WrapEarly(uv, 4096);
    WrapEarly(y, Wrap(uv + 4096));
    WrapEarly(y, uv + 4096);
    WrapEarly(y + (uv + 4096), 8192);
    WrapEarly(2 * (y + (uv + 4096)), 8192);
  }

  lemma WrapRange(n: int)
    ensures 0 <= Wrap(n) < TWO32
  {
  }

  lemma AlignedTotal(total: nat, r: nat)
    requires IsAligned(Wrap(total), 4096, r)
    ensures r < TWO32 && (IsRoundUp(total, 4096, r) <==> total + 4095 < TWO32)
  {
    if total < TWO32 {
      WrapSmall(total);
    }
  }

  lemma EndFits(end: nat, total: nat, r: nat)
    requires IsAligned(Wrap(total), 4096, r) && end + 12288 <= total <= end + 16384
    ensures end <= r <==> total + 4095 < TWO32
  {
    AlignedTotal(total, r);
    if total < TWO32 {
      WrapSmall(total);
    } else if end < TWO32 {
      WrapOnce(total);
    }
  }

  /** The buffer size is the exact total rounded up to a page if and only if that fits in 32 bits. */
  lemma BufferSizeIsExact(format: ColorFormat, width: int, height: int)
    requires width != 0 && height != 0 && !format.Unknown?
    ensures BufferSize(format, width, height) < TWO32
    ensures IsRoundUp(Total(format, width, height), 4096, BufferSize(format, width, height)) <==>
            Total(format, width, height) + 4095 < TWO32
  {
    hide BufferSize, Total, MediaAlign, Wrap, IsAligned, IsRoundUp;
    var total := Total(format, width, height);
    BufferSizeAlignsTotal(format, width, height);
    WrapRange(total);
    MediaAlignAligns(Wrap(total));
    AlignedTotal(total, BufferSize(format, width, height));
  }

  /** The comments give a total of the views and 4096 bytes, aligned; the code's size is larger by exactly
      8 KiB, and by 12 KiB for two views. */
  lemma BufferExceedsDocumented(format: ColorFormat, width: int, height: int)
    requires width != 0 && height != 0 && !format.Unknown?
    requires Total(format, width, height) + 4095 < TWO32
    ensures var extra := if format.NV12_MVTB? then 12288 else 8192;
            && extra <= BufferSize(format, width, height)
            && IsRoundUp(ViewsEnd(format, width, height) + 4096, 4096, BufferSize(format, width, height) - extra)
  {
    hide BufferSize, ViewSize;
    BufferSizeIsExact(format, width, height);
  }

  /** Both views of a two-view buffer, or the one view of the others, end inside the buffer if and only
      if the aligned total fits in 32 bits; the second view then starts where the first one ends. */
  lemma ViewsFit(format: ColorFormat, width: int, height: int)
    requires width != 0 && height != 0 && !format.Unknown?
    ensures ViewsEnd(format, width, height) <= BufferSize(format, width, height) <==>
            Total(format, width, height) + 4095 < TWO32
    ensures format.NV12_MVTB? && Total(format, width, height) + 4095 < TWO32 ==>
              View2Offset(format, width, height) == ViewSize(format, width, height)
  {
    hide BufferSize, ViewSize, MediaAlign, View2Offset, Wrap, IsAligned;
    var total := Total(format, width, height);
    BufferSizeAlignsTotal(format, width, height);
    WrapRange(total);
    MediaAlignAligns(Wrap(total));
    EndFits(ViewsEnd(format, width, height), total, BufferSize(format, width, height));
    if format.NV12_MVTB? && total + 4095 < TWO32 {
      View2OffsetIsReduced(width, height);
      WrapSmall(ViewSize(format, width, height));
    }
  }

  lemma View2OffsetIsReduced(width: int, height: int)
    requires width != 0 && height != 0
    ensures View2Offset(NV12_MVTB, width, height) == Wrap(ViewSize(NV12_MVTB, width, height))
  {
    hide YStride, UvStride, YScanlines, UvScanlines, Wrap;
    var y := YStride(NV12_MVTB, width) * YScanlines(NV12_MVTB, height);
    var uv := UvStride(NV12_MVTB, width) * UvScanlines(NV12_MVTB, height);
    WrapEarly(y, Wrap(uv));
    WrapEarly(y, uv);
  }

  lemma PlaneBounds(format: ColorFormat, width: int, height: int)
    requires 0 < width <= 16384 && 0 < height <= 16384 && !format.Unknown?
    ensures Plane(YStride(format, width), YScanlines(format, height)) <= 0x1000_0000
    ensures Plane(UvStride(format, width), UvScanlines(format, height)) <= 0x800_0000
  {
    hide YStride, UvStride, YScanlines, UvScanlines, Wrap;
    StridesRoundUp(format, width);
    ScanlinesRoundUp(format, height);
    RoundUpIsLeast(width, 128, YStride(format, width), 16384);
    RoundUpIsLeast(height, 32, YScanlines(format, height), 16384);
    RoundUpIsLeast((height + 1) / 2, 16, UvScanlines(format, height), 8192);
    ProductBound(YStride(format, width), YScanlines(format, height), 16384, 16384);
    ProductBound(UvStride(format, width), UvScanlines(format, height), 16384, 8192);
  }

  /** Up to 16384 by 16384 everything fits, and the luma plane holds the picture. */
  lemma DimensionsFit(format: ColorFormat, width: int, height: int)
    requires 0 < width <= 16384 && 0 < height <= 16384 && !format.Unknown?
    ensures Total(format, width, height) + 4095 < TWO32
    ensures width * height <= Plane(YStride(format, width), YScanlines(format, height))
  {
    hide YStride, UvStride, YScanlines, UvScanlines, Wrap;
    PlaneBounds(format, width, height);
    StridesRoundUp(format, width);
    ScanlinesRoundUp(format, height);
    ProductBound(width, height, YStride(format, width), YScanlines(format, height));
  }
}
