// The convolution layout kernels: im2col, its scatter reference col2im, and the
// backward kernel that gathers what the scatter accumulates.
module Conv {
  import opened Digits
  import opened Sums

  const U32: int := 0x1_0000_0000

  // ---- row-major offsets (_flat) ----

  function RowMajor(idx: seq<int>, dims: seq<int>): int
    requires |idx| == |dims| >= 1
  {
    var n := |idx| - 1;
    if n == 0 then idx[0] else RowMajor(idx[..n], dims[..n]) * dims[n] + idx[n]
  }

  ghost function Product(dims: seq<int>): int {
    if dims == [] then 1 else Product(dims[..|dims| - 1]) * dims[|dims| - 1]
  }

  ghost predicate Within(idx: seq<int>, dims: seq<int>) {
    |idx| == |dims| && forall i :: 0 <= i < |idx| ==> 0 <= idx[i] < dims[i]
  }

  method Flat(idx: seq<int>, dims: seq<int>) returns (off: int)
    requires |idx| == |dims| >= 1
    ensures off == RowMajor(idx, dims)
  {
    off := idx[0];
    for i := 1 to |idx|
      invariant off == RowMajor(idx[..i], dims[..i])
    {
      assert idx[..i + 1][..i] == idx[..i] && dims[..i + 1][..i] == dims[..i];
      off := off * dims[i] + idx[i];
    }
    assert idx[..|idx|] == idx && dims[..|idx|] == dims;
  }

  // Offsets of in-range indices fill the buffer without collision.
  lemma {:induction false} RowMajorFits(idx: seq<int>, dims: seq<int>)
    requires |idx| >= 1 && Within(idx, dims)
    ensures 0 <= RowMajor(idx, dims) < Product(dims)
  {
    var n := |idx| - 1;
    if n == 0 {
      assert dims[..0] == [] && Product(dims) == Product(dims[..0]) * dims[0];
    } else {
      RowMajorFits(idx[..n], dims[..n]);
      OffsetBelow(RowMajor(idx[..n], dims[..n]), Product(dims[..n]), dims[n], idx[n]);
    }
  }

  lemma {:induction false} RowMajorInjective(idx: seq<int>, idx': seq<int>, dims: seq<int>)
    requires |idx| >= 1 && Within(idx, dims) && Within(idx', dims)
    requires RowMajor(idx, dims) == RowMajor(idx', dims)
    ensures idx == idx'
  {
    var n := |idx| - 1;
    if n > 0 {
      Digit(RowMajor(idx[..n], dims[..n]), dims[n], idx[n]);
      Digit(RowMajor(idx'[..n], dims[..n]), dims[n], idx'[n]);
      RowMajorInjective(idx[..n], idx'[..n], dims[..n]);
      assert idx == idx[..n] + [idx[n]] && idx' == idx'[..n] + [idx'[n]];
    }
  }

  lemma RowMajor3(a: int, b: int, c: int, da: int, db: int, dc: int)
    ensures RowMajor([a, b, c], [da, db, dc]) == (a * db + b) * dc + c
  {
    assert [a, b, c][..2] == [a, b] && [da, db, dc][..2] == [da, db];
    assert [a, b][..1] == [a] && [da, db][..1] == [da];
    assert RowMajor([a, b], [da, db]) == a * db + b;
  }

  // ---- shapes ----

  datatype Conv = Conv(N: nat, Cin: nat, H: nat, W: nat, kh: nat, kw: nat) {
    // The kernel fits the image.
    predicate Valid() { kh <= H && kw <= W }

    function OH(): nat requires Valid() { H - kh + 1 }
    function OW(): nat requires Valid() { W - kw + 1 }

    // Rows and columns of the patch matrix.
    function P(): nat requires Valid() { N * OH() * OW() }
    function S(): nat { Cin * kh * kw }

    function PIdx(n: int, i: int, j: int): int requires Valid() { (n * OH() + i) * OW() + j }
    function SIdx(c: int, ki: int, kj: int): int { (c * kh + ki) * kw + kj }

    predicate Position(n: int, i: int, j: int) requires Valid() { 0 <= n < N && 0 <= i < OH() && 0 <= j < OW() }
    predicate Offset(c: int, ki: int, kj: int) { 0 <= c < Cin && 0 <= ki < kh && 0 <= kj < kw }
  }

  lemma PIdxFits(cv: Conv, n: int, i: int, j: int)
    requires cv.Valid() && cv.Position(n, i, j)
    ensures 0 <= cv.PIdx(n, i, j) < cv.P()
  {
    OffsetBelow(n, cv.N, cv.OH(), i);
    OffsetBelow(n * cv.OH() + i, cv.N * cv.OH(), cv.OW(), j);
  }

  lemma SIdxFits(cv: Conv, c: int, ki: int, kj: int)
    requires cv.Offset(c, ki, kj)
    ensures 0 <= cv.SIdx(c, ki, kj) < cv.S()
  {
    OffsetBelow(c, cv.Cin, cv.kh, ki);
    OffsetBelow(c * cv.kh + ki, cv.Cin * cv.kh, cv.kw, kj);
  }

  // ---- what scatter and gather compute ----

  ghost function Load(d: seq<real>, a: int): real {
    if 0 <= a < |d| then d[a] else 0.0
  }

  // Entry of the P x S gradient matrix for output position (n, i, j) and
  // kernel offset (c, ki, kj).
  ghost function Entry(cv: Conv, d: seq<real>, n: int, i: int, j: int, c: int, ki: int, kj: int): real
    requires cv.Valid()
  {
    Load(d, cv.PIdx(n, i, j) * cv.S() + cv.SIdx(c, ki, kj))
  }

  // Every window that fits the image is an output position, and no other.
  lemma WindowsFit(cv: Conv, n: int, i: int, j: int)
    requires cv.Valid()
    ensures cv.Position(n, i, j) <==>
            0 <= n < cv.N && 0 <= i && i + cv.kh <= cv.H && 0 <= j && j + cv.kw <= cv.W
  {
  }

  // What position (i, j) contributes to pixel (h, w): its kernel window covers
  // the pixel at offset (h - i, w - j), or not at all.
  ghost function Hit(cv: Conv, d: seq<real>, n: int, c: int, h: int, w: int, i: int, j: int): real
    requires cv.Valid()
  {
    if 0 <= h - i < cv.kh && 0 <= w - j < cv.kw then Entry(cv, d, n, i, j, c, h - i, w - j) else 0.0
  }

  // The gradient entry at row (n * OH + i) * OW + j and column (c * kh + h - i) * kw + w - j
  // of P rows and Cin * kh * kw columns.
  lemma HitIs(cv: Conv, d: seq<real>, n: int, c: int, h: int, w: int, i: int, j: int)
    requires cv.Valid() && |d| == cv.P() * cv.S() && Pixel(cv, n, c, h, w) && cv.Position(n, i, j)
    ensures var row, col, width := (n * (cv.H - cv.kh + 1) + i) * (cv.W - cv.kw + 1) + j, (c * cv.kh + h - i) * cv.kw + w - j, cv.Cin * cv.kh * cv.kw;
      if i <= h < i + cv.kh && j <= w < j + cv.kw
      then 0 <= row * width + col < |d| && Hit(cv, d, n, c, h, w, i, j) == d[row * width + col]
      else Hit(cv, d, n, c, h, w, i, j) == 0.0
  {
    if i <= h < i + cv.kh && j <= w < j + cv.kw {
      PIdxFits(cv, n, i, j);
      SIdxFits(cv, c, h - i, w - j);
      OffsetBelow(cv.PIdx(n, i, j), cv.P(), cv.S(), cv.SIdx(c, h - i, w - j));
    }
  }

  ghost function Hits(cv: Conv, d: seq<real>, n: int, c: int, h: int, w: int): (int, int) -> real
    requires cv.Valid()
  {
    (i, j) => Hit(cv, d, n, c, h, w, i, j)
  }

  // The col2im value of a pixel: all output positions, in scatter order.
  ghost function Scattered(cv: Conv, d: seq<real>, n: int, c: int, h: int, w: int): real
    requires cv.Valid()
  {
    Sum(cv.OH(), Row(cv.OW(), Hits(cv, d, n, c, h, w)))
  }

  // What kernel tap (ki, kj) contributes to pixel (h, w).
  ghost function Tap(cv: Conv, d: seq<real>, n: int, c: int, h: int, w: int, ki: int, kj: int): real
    requires cv.Valid()
  {
    if 0 <= h - ki < cv.OH() && 0 <= w - kj < cv.OW() then Entry(cv, d, n, h - ki, w - kj, c, ki, kj) else 0.0
  }

  ghost function Taps(cv: Conv, d: seq<real>, n: int, c: int, h: int, w: int): (int, int) -> real
    requires cv.Valid()
  {
    (kj, ki) => Tap(cv, d, n, c, h, w, ki, kj)
  }

  ghost function Gathered(cv: Conv, d: seq<real>, n: int, c: int, h: int, w: int): real
    requires cv.Valid()
  {
    Sum(cv.kw, Row(cv.kh, Taps(cv, d, n, c, h, w)))
  }

  // Summing over the positions that reach a pixel is summing over the taps that
  // reach it, for every pixel and every shape.
  lemma GatherIsScatter(cv: Conv, d: seq<real>, n: int, c: int, h: int, w: int)
    requires cv.Valid()
    ensures Gathered(cv, d, n, c, h, w) == Scattered(cv, d, n, c, h, w)
  {
    var oh, ow, kh, kw := cv.OH(), cv.OW(), cv.kh, cv.kw;
    var hits, taps := Hits(cv, d, n, c, h, w), Taps(cv, d, n, c, h, w);
    var half := (i: int, kj: int) =>
      if 0 <= h - i < kh && 0 <= w - kj < ow then Entry(cv, d, n, i, w - kj, c, h - i, kj) else 0.0;
    forall i: int ensures Row(ow, hits)(i) == Row(kw, half)(i) {
      var g := (j: int) => if 0 <= h - i < kh then Entry(cv, d, n, i, j, c, h - i, w - j) else 0.0;
      SumSame(ow, j => hits(i, j), j => if 0 <= w - j < kw then g(j) else 0.0);
      SumReindex(ow, kw, w, g);
      SumSame(kw, q => if 0 <= w - q < ow then g(w - q) else 0.0, kj => half(i, kj));
    }
    SumSame(oh, Row(ow, hits), Row(kw, half));
    SumSwap(oh, kw, half);
    forall kj: int ensures Row(oh, Flip(half))(kj) == Row(kh, taps)(kj) {
      var g := (i: int) => if 0 <= w - kj < ow then Entry(cv, d, n, i, w - kj, c, h - i, kj) else 0.0;
      SumSame(oh, i => Flip(half)(kj, i), i => if 0 <= h - i < kh then g(i) else 0.0);
      SumReindex(oh, kh, h, g);
      SumSame(kh, q => if 0 <= h - q < oh then g(h - q) else 0.0, ki => taps(kj, ki));
    }
    SumSame(kw, Row(oh, Flip(half)), Row(kh, taps));
  }

  // ---- the gather kernel's mask and addresses (build_conv2d_bwd_dx) ----

  // Two readings of the index subtraction: wrapping as the kernel's comment
  // says, or signed as the renderer emits it.
  datatype Reading = Wrapping | Signed

  function ISub(r: Reading, a: int, b: int): int {
    if r.Wrapping? then (a - b) % U32 else a - b
  }

  // The one-sided bounds mask.
  predicate InBounds(cv: Conv, r: Reading, ih: int, iw: int, ki: int, kj: int)
    requires cv.Valid()
  {
    ISub(r, ih, ki) < cv.OH() && ISub(r, iw, kj) < cv.OW()
  }

  // The address a tap loads from, clamped to position (0, 0) when masked off.
  function Address(cv: Conv, r: Reading, n: int, c: int, ih: int, iw: int, ki: int, kj: int): int
    requires cv.Valid()
  {
    var inb := InBounds(cv, r, ih, iw, ki, kj);
    var ohc, owc := if inb then ISub(r, ih, ki) else 0, if inb then ISub(r, iw, kj) else 0;
    var p := RowMajor([n, ohc, owc], [cv.N, cv.OH(), cv.OW()]);
    var s := RowMajor([c, ki, kj], [cv.Cin, cv.kh, cv.kw]);
    p * cv.S() + s
  }

  ghost predicate Pixel(cv: Conv, n: int, c: int, ih: int, iw: int) {
    0 <= n < cv.N && 0 <= c < cv.Cin && 0 <= ih < cv.H && 0 <= iw < cv.W
  }

  ghost function Kernel(cv: Conv, r: Reading, d: seq<real>, n: int, c: int, ih: int, iw: int): (int, int) -> real
    requires cv.Valid()
  {
    (kj, ki) => if InBounds(cv, r, ih, iw, ki, kj) then Load(d, Address(cv, r, n, c, ih, iw, ki, kj)) else 0.0
  }

  // The kernel's output for one pixel: reduce over ki, then over kj.
  ghost function KernelValue(cv: Conv, r: Reading, d: seq<real>, n: int, c: int, ih: int, iw: int): real
    requires cv.Valid()
  {
    Sum(cv.kw, Row(cv.kh, Kernel(cv, r, d, n, c, ih, iw)))
  }

  // Every address the kernel may load, masked or not, is inside the buffer.
  ghost predicate AddressesFit(cv: Conv, r: Reading)
    requires cv.Valid()
  {
    forall n, c, ih, iw, ki, kj :: Pixel(cv, n, c, ih, iw) && cv.Offset(c, ki, kj) ==>
      0 <= Address(cv, r, n, c, ih, iw, ki, kj) < cv.P() * cv.S()
  }

  // With wrapping subtraction one comparison rejects both sides.
  lemma WrapMask(m: int, k: int, a: int, b: int)
    requires 0 <= k <= m <= U32 && 0 <= a < m && 0 <= b < k
    ensures ISub(Wrapping, a, b) < m - k + 1 <==> 0 <= a - b < m - k + 1
    ensures 0 <= a - b ==> ISub(Wrapping, a, b) == a - b
  {
    if a >= b {
      assert (a - b) % 0x1_0000_0000 == a - b;
    } else {
      assert (a - b) % 0x1_0000_0000 == a - b + 0x1_0000_0000;
    }
  }

  lemma AddressIs(cv: Conv, r: Reading, n: int, c: int, ih: int, iw: int, ki: int, kj: int)
    requires cv.Valid()
    ensures Address(cv, r, n, c, ih, iw, ki, kj) ==
            (if InBounds(cv, r, ih, iw, ki, kj) then cv.PIdx(n, ISub(r, ih, ki), ISub(r, iw, kj)) else cv.PIdx(n, 0, 0)) * cv.S()
            + cv.SIdx(c, ki, kj)
  {
    var inb := InBounds(cv, r, ih, iw, ki, kj);
    var ohc, owc := if inb then ISub(r, ih, ki) else 0, if inb then ISub(r, iw, kj) else 0;
    RowMajor3(n, ohc, owc, cv.N, cv.OH(), cv.OW());
    RowMajor3(c, ki, kj, cv.Cin, cv.kh, cv.kw);
  }

  // Read as wrapping, the kernel is safe and computes what the scatter loop
  // accumulates.
  lemma WrappingKernel(cv: Conv, d: seq<real>, n: int, c: int, ih: int, iw: int)
    requires cv.Valid() && cv.H <= U32 && cv.W <= U32 && Pixel(cv, n, c, ih, iw)
    ensures KernelValue(cv, Wrapping, d, n, c, ih, iw) == Scattered(cv, d, n, c, ih, iw)
  {
    var kernel, taps := Kernel(cv, Wrapping, d, n, c, ih, iw), Taps(cv, d, n, c, ih, iw);
    forall kj | 0 <= kj < cv.kw ensures Row(cv.kh, kernel)(kj) == Row(cv.kh, taps)(kj) {
      forall ki | 0 <= ki < cv.kh ensures kernel(kj, ki) == taps(kj, ki) {
        WrapMask(cv.H, cv.kh, ih, ki);
        WrapMask(cv.W, cv.kw, iw, kj);
        AddressIs(cv, Wrapping, n, c, ih, iw, ki, kj);
      }
      SumSame(cv.kh, ki => kernel(kj, ki), ki => taps(kj, ki));
    }
    SumSame(cv.kw, Row(cv.kh, kernel), Row(cv.kh, taps));
    GatherIsScatter(cv, d, n, c, ih, iw);
  }

  lemma WrappingFits(cv: Conv)
    requires cv.Valid() && cv.H <= U32 && cv.W <= U32
    ensures AddressesFit(cv, Wrapping)
  {
    forall n, c, ih, iw, ki, kj | Pixel(cv, n, c, ih, iw) && cv.Offset(c, ki, kj)
      ensures 0 <= Address(cv, Wrapping, n, c, ih, iw, ki, kj) < cv.P() * cv.S()
    {
      WrapMask(cv.H, cv.kh, ih, ki);
      WrapMask(cv.W, cv.kw, iw, kj);
      AddressIs(cv, Wrapping, n, c, ih, iw, ki, kj);
      var inb := InBounds(cv, Wrapping, ih, iw, ki, kj);
      var i, j := if inb then ih - ki else 0, if inb then iw - kj else 0;
      PIdxFits(cv, n, i, j);
      SIdxFits(cv, c, ki, kj);
      OffsetBelow(cv.PIdx(n, i, j), cv.P(), cv.S(), cv.SIdx(c, ki, kj));
    }
  }

  // Read as signed, a negative difference passes the one-sided mask: the loads
  // stay inside the buffer exactly for one-by-one kernels.
  lemma SignedFitsIff(cv: Conv)
    requires cv.Valid() && cv.N >= 1 && cv.Cin >= 1 && cv.kh >= 1 && cv.kw >= 1
    ensures AddressesFit(cv, Signed) <==> cv.kh == 1 && cv.kw == 1
  {
    if cv.kh == 1 && cv.kw == 1 {
      forall n, c, ih, iw, ki, kj | Pixel(cv, n, c, ih, iw) && cv.Offset(c, ki, kj)
        ensures 0 <= Address(cv, Signed, n, c, ih, iw, ki, kj) < cv.P() * cv.S()
      {
        AddressIs(cv, Signed, n, c, ih, iw, ki, kj);
        PIdxFits(cv, n, ih, iw);
        SIdxFits(cv, c, ki, kj);
        OffsetBelow(cv.PIdx(n, ih, iw), cv.P(), cv.S(), cv.SIdx(c, ki, kj));
      }
    } else {
      var ki, kj := if cv.kh == 1 then 0 else 1, if cv.kh == 1 then 1 else 0;
      AddressIs(cv, Signed, 0, 0, 0, 0, ki, kj);
      SIdxFits(cv, 0, ki, kj);
      assert cv.PIdx(0, -ki, -kj) == -ki * cv.OW() - kj <= -1;
      TimesAway(cv.S(), cv.PIdx(0, -ki, -kj));
      assert Pixel(cv, 0, 0, 0, 0) && cv.Offset(0, ki, kj);
      assert Address(cv, Signed, 0, 0, 0, 0, ki, kj) < 0;
    }
  }

  // Read as signed, every pixel gets what the scatter loop gives it.
  ghost predicate SignedExact(cv: Conv)
    requires cv.Valid()
  {
    forall d: seq<real>, n: int, c: int, ih: int, iw: int {:trigger KernelValue(cv, Signed, d, n, c, ih, iw)} ::
      |d| == cv.P() * cv.S() && Pixel(cv, n, c, ih, iw) ==>
        KernelValue(cv, Signed, d, n, c, ih, iw) == Scattered(cv, d, n, c, ih, iw)
  }

  lemma SignedKernel(cv: Conv, d: seq<real>, n: int, c: int, ih: int, iw: int)
    requires cv.Valid() && cv.kh == 1 && cv.kw == 1 && Pixel(cv, n, c, ih, iw)
    ensures KernelValue(cv, Signed, d, n, c, ih, iw) == Scattered(cv, d, n, c, ih, iw)
  {
    var kernel, taps := Kernel(cv, Signed, d, n, c, ih, iw), Taps(cv, d, n, c, ih, iw);
    AddressIs(cv, Signed, n, c, ih, iw, 0, 0);
    assert kernel(0, 0) == taps(0, 0);
    SumSame2(cv.kw, cv.kh, kernel, taps);
    GatherIsScatter(cv, d, n, c, ih, iw);
  }

  // Read as signed, the kernel loads from inside the buffer and computes what
  // the scatter loop accumulates exactly for one-by-one kernels.
  lemma SignedCorrectIff(cv: Conv)
    requires cv.Valid() && cv.N >= 1 && cv.Cin >= 1 && cv.kh >= 1 && cv.kw >= 1
    ensures AddressesFit(cv, Signed) && SignedExact(cv) <==> cv.kh == 1 && cv.kw == 1
  {
    SignedFitsIff(cv);
    if cv.kh == 1 && cv.kw == 1 {
      forall d: seq<real>, n: int, c: int, ih: int, iw: int | |d| == cv.P() * cv.S() && Pixel(cv, n, c, ih, iw)
        ensures KernelValue(cv, Signed, d, n, c, ih, iw) == Scattered(cv, d, n, c, ih, iw)
      {
        SignedKernel(cv, d, n, c, ih, iw);
      }
    }
  }

  // Position (ih, -1) is the last position of the row above.
  lemma ColumnBefore(cv: Conv, n: int, ih: int)
    requires cv.Valid()
    ensures cv.PIdx(n, ih, -1) == cv.PIdx(n, ih - 1, cv.OW() - 1)
  {
    var q, ow := n * cv.OH() + ih, cv.OW();
    assert q * ow == (q - 1) * ow + ow;
  }

  // Read as signed, tap (0, 1) of a pixel in column 0 loads what the row above
  // has at its last position, where the scatter loop has nothing for it.
  lemma SignedTap(cv: Conv, d: seq<real>, n: int, c: int, ih: int)
    requires cv.Valid() && Pixel(cv, n, c, ih, 0) && 1 <= ih < cv.OH() && cv.kw >= 2 && cv.kh >= 1
    ensures Kernel(cv, Signed, d, n, c, ih, 0)(0, 0) == Taps(cv, d, n, c, ih, 0)(0, 0) == Entry(cv, d, n, ih, 0, c, 0, 0)
    ensures Kernel(cv, Signed, d, n, c, ih, 0)(1, 0) == Entry(cv, d, n, ih - 1, cv.OW() - 1, c, 0, 1)
    ensures Taps(cv, d, n, c, ih, 0)(1, 0) == 0.0
    ensures 0 <= Address(cv, Signed, n, c, ih, 0, 0, 1) < cv.P() * cv.S()
  {
    AddressIs(cv, Signed, n, c, ih, 0, 0, 0);
    AddressIs(cv, Signed, n, c, ih, 0, 0, 1);
    ColumnBefore(cv, n, ih);
    PIdxFits(cv, n, ih - 1, cv.OW() - 1);
    SIdxFits(cv, c, 0, 1);
    OffsetBelow(cv.PIdx(n, ih - 1, cv.OW() - 1), cv.P(), cv.S(), cv.SIdx(c, 0, 1));
  }

  // Loads that stay in range may still be wrong: for every 1 x 2 kernel, a pixel
  // of column 0 below the first row also picks up a gradient of the row above.
  lemma SignedValueDiffers(cv: Conv, d: seq<real>, n: int, c: int, ih: int)
    requires cv.Valid() && cv.kh == 1 && cv.kw == 2 && Pixel(cv, n, c, ih, 0) && 1 <= ih
    ensures KernelValue(cv, Signed, d, n, c, ih, 0) ==
            Scattered(cv, d, n, c, ih, 0) + Entry(cv, d, n, ih - 1, cv.OW() - 1, c, 0, 1)
    ensures Scattered(cv, d, n, c, ih, 0) == Entry(cv, d, n, ih, 0, c, 0, 0)
  {
    SignedTap(cv, d, n, c, ih);
    TwoByOne(Kernel(cv, Signed, d, n, c, ih, 0));
    TwoByOne(Taps(cv, d, n, c, ih, 0));
    GatherIsScatter(cv, d, n, c, ih, 0);
  }

  // The smallest case, a 2 x 2 image: d[2] + d[1] at pixel (1, 0) in place of d[2].
  lemma SmallestDifference(cv: Conv, d: seq<real>)
    requires cv == Conv(1, 1, 2, 2, 1, 2) && |d| == 4
    ensures KernelValue(cv, Signed, d, 0, 0, 1, 0) == d[2] + d[1] && Scattered(cv, d, 0, 0, 1, 0) == d[2]
  {
    SignedValueDiffers(cv, d, 0, 0, 1);
    SmallEntries(cv, d, cv.OW() - 1);
  }

  lemma SmallEntries(cv: Conv, d: seq<real>, j: int)
    requires cv == Conv(1, 1, 2, 2, 1, 2) && |d| == 4 && j == cv.OW() - 1
    ensures Entry(cv, d, 0, 1, 0, 0, 0, 0) == d[2] && Entry(cv, d, 0, 0, j, 0, 0, 1) == d[1]
  {
    assert cv.OH() == 2 && cv.OW() == 1 && cv.S() == 2;
  }

  lemma TwoByOne(f: (int, int) -> real)
    ensures Sum(2, Row(1, f)) == f(0, 0) + f(1, 0)
  {
    OneTerm(f, 0);
    OneTerm(f, 1);
    assert Sum(2, Row(1, f)) == Sum(1, Row(1, f)) + Row(1, f)(1);
    assert Sum(1, Row(1, f)) == Sum(0, Row(1, f)) + Row(1, f)(0);
  }

  lemma OneTerm(f: (int, int) -> real, i: int)
    ensures Row(1, f)(i) == f(i, 0)
  {
    var g := j => f(i, j);
    assert Sum(1, g) == Sum(0, g) + g(0);
  }

  // ---- addresses in 32-bit words ----

  // The offset with every product and sum reduced modulo 2^32.
  function WordMajor(idx: seq<int>, dims: seq<int>): int
    requires |idx| == |dims| >= 1
  {
    var n := |idx| - 1;
    if n == 0 then idx[0] % U32 else ((WordMajor(idx[..n], dims[..n]) * dims[n]) % U32 + idx[n]) % U32
  }

  // As long as the buffer has at most 2^32 entries, nothing wraps.
  lemma {:induction false} WordsSuffice(idx: seq<int>, dims: seq<int>)
    requires |idx| >= 1 && Within(idx, dims) && Product(dims) <= U32
    ensures WordMajor(idx, dims) == RowMajor(idx, dims)
  {
    var n := |idx| - 1;
    RowMajorFits(idx, dims);
    if n > 0 {
      var off, extent := RowMajor(idx[..n], dims[..n]), Product(dims[..n]);
      RowMajorFits(idx[..n], dims[..n]);
      ProductMonotone(off, extent, dims[n]);
      WordsSuffice(idx[..n], dims[..n]);
      WordFits(off * dims[n]);
      WordFits(off * dims[n] + idx[n]);
    } else {
      WordFits(idx[0]);
    }
  }

  lemma ProductMonotone(off: int, extent: int, dim: int)
    requires 0 <= off < extent && dim >= 1
    ensures extent <= extent * dim && 0 <= off * dim
  {
    assert extent * dim == extent + extent * (dim - 1);
    assert extent * (dim - 1) >= 0;
  }

  // The kernel's address with all index arithmetic in 32-bit words.
  function WordAddress(cv: Conv, n: int, c: int, ih: int, iw: int, ki: int, kj: int): int
    requires cv.Valid()
  {
    var inb := InBounds(cv, Wrapping, ih, iw, ki, kj);
    var ohc, owc := if inb then ISub(Wrapping, ih, ki) else 0, if inb then ISub(Wrapping, iw, kj) else 0;
    var p := WordMajor([n, ohc, owc], [cv.N, cv.OH(), cv.OW()]);
    var s := WordMajor([c, ki, kj], [cv.Cin, cv.kh, cv.kw]);
    WordMajor([p, s], [cv.P(), cv.S()])
  }

  lemma Products(a: int, b: int, c: int)
    ensures Product([a, b]) == a * b && Product([a, b, c]) == a * b * c
  {
    assert [a, b, c][..2] == [a, b] && [a, b][..1] == [a] && [a][..0] == [];
    assert Product([a]) == Product([]) * a;
  }

  // With at most 2^32 gradient entries the words hold the true address.
  lemma WordAddressIs(cv: Conv, n: int, c: int, ih: int, iw: int, ki: int, kj: int)
    requires cv.Valid() && cv.H <= U32 && cv.W <= U32 && Pixel(cv, n, c, ih, iw) && cv.Offset(c, ki, kj)
    requires cv.P() * cv.S() <= U32
    ensures WordAddress(cv, n, c, ih, iw, ki, kj) == Address(cv, Wrapping, n, c, ih, iw, ki, kj)
  {
    WrapMask(cv.H, cv.kh, ih, ki);
    WrapMask(cv.W, cv.kw, iw, kj);
    var inb := InBounds(cv, Wrapping, ih, iw, ki, kj);
    var ohc, owc := if inb then ISub(Wrapping, ih, ki) else 0, if inb then ISub(Wrapping, iw, kj) else 0;
    WordEntry(cv, n, ohc, owc, c, ki, kj);
  }

  lemma WordEntry(cv: Conv, n: int, i: int, j: int, c: int, ki: int, kj: int)
    requires cv.Valid() && cv.Position(n, i, j) && cv.Offset(c, ki, kj) && cv.P() * cv.S() <= U32
    ensures var p, s := WordMajor([n, i, j], [cv.N, cv.OH(), cv.OW()]), WordMajor([c, ki, kj], [cv.Cin, cv.kh, cv.kw]);
      && p == RowMajor([n, i, j], [cv.N, cv.OH(), cv.OW()]) && s == RowMajor([c, ki, kj], [cv.Cin, cv.kh, cv.kw])
      && WordMajor([p, s], [cv.P(), cv.S()]) == p * cv.S() + s
  {
    PIdxFits(cv, n, i, j);
    SIdxFits(cv, c, ki, kj);
    RowMajor3(n, i, j, cv.N, cv.OH(), cv.OW());
    RowMajor3(c, ki, kj, cv.Cin, cv.kh, cv.kw);
    Products(cv.N, cv.OH(), cv.OW());
    Products(cv.Cin, cv.kh, cv.kw);
    Products(cv.P(), cv.S(), 1);
    ProductMonotone(0, cv.P(), cv.S());
    ProductMonotone(0, cv.S(), cv.P());
    WordsSuffice([n, i, j], [cv.N, cv.OH(), cv.OW()]);
    WordsSuffice([c, ki, kj], [cv.Cin, cv.kh, cv.kw]);
    var p, s := cv.PIdx(n, i, j), cv.SIdx(c, ki, kj);
    WordsSuffice([p, s], [cv.P(), cv.S()]);
    assert [p, s][..1] == [p] && [cv.P(), cv.S()][..1] == [cv.P()];
  }

  lemma WordFits(a: int)
    requires 0 <= a < U32
    ensures a % U32 == a
  {
  }

  // ---- im2col and its adjoint ----

  // An image batch, read at (n, c, h, w).
  type Image = (int, int, int, int) -> real

  // The patch matrix: row p is an output position, column s a kernel offset.
  ghost function Patch(cv: Conv, x: Image, p: int, s: int): real
    requires cv.Valid()
  {
    if cv.kh == 0 || cv.kw == 0 then 0.0
    else
      var n, i, j := p / cv.OW() / cv.OH(), p / cv.OW() % cv.OH(), p % cv.OW();
      var c, ki, kj := s / cv.kw / cv.kh, s / cv.kw % cv.kh, s % cv.kw;
      x(n, c, i + ki, j + kj)
  }

  lemma PatchAt(cv: Conv, x: Image, n: int, i: int, j: int, c: int, ki: int, kj: int)
    requires cv.Valid() && cv.Position(n, i, j) && cv.Offset(c, ki, kj)
    ensures Patch(cv, x, cv.PIdx(n, i, j), cv.SIdx(c, ki, kj)) == x(n, c, i + ki, j + kj)
  {
    Digit(n * cv.OH() + i, cv.OW(), j);
    Digit(n, cv.OH(), i);
    Digit(c * cv.kh + ki, cv.kw, kj);
    Digit(c, cv.kh, ki);
  }

  // One window of the patch matrix against the same window of d.
  ghost function Window(cv: Conv, x: Image, d: seq<real>, n: int, i: int, j: int, c: int): (int, int) -> real
    requires cv.Valid()
  {
    (ki, kj) => x(n, c, i + ki, j + kj) * Entry(cv, d, n, i, j, c, ki, kj)
  }

  ghost function Windows(cv: Conv, x: Image, d: seq<real>, n: int): (int, int, int) -> real
    requires cv.Valid()
  {
    (i, j, c) => Sum(cv.kh, Row(cv.kw, Window(cv, x, d, n, i, j, c)))
  }

  // One pixel against what position (i, j) contributes to it.
  ghost function Meets(cv: Conv, x: Image, d: seq<real>, n: int, c: int): (int, int, int, int) -> real
    requires cv.Valid()
  {
    (i, j, h, w) => x(n, c, h, w) * Hit(cv, d, n, c, h, w, i, j)
  }

  ghost function Pixels(cv: Conv, x: Image, d: seq<real>, n: int, c: int): (int, int) -> real
    requires cv.Valid()
  {
    (h, w) => x(n, c, h, w) * Scattered(cv, d, n, c, h, w)
  }

  // Position (i, j) meets a pixel inside its window at that offset, and no other pixel.
  lemma MeetsAt(cv: Conv, x: Image, d: seq<real>, n: int, i: int, j: int, c: int, h: int, w: int)
    requires cv.Valid()
    ensures Meets(cv, x, d, n, c)(i, j, h, w) ==
            if 0 <= h - i < cv.kh && 0 <= w - j < cv.kw then Window(cv, x, d, n, i, j, c)(h - i, w - j) else 0.0
  {
    var v, hit := x(n, c, h, w), Hit(cv, d, n, c, h, w, i, j);
    assert Meets(cv, x, d, n, c)(i, j, h, w) == v * hit;
    if 0 <= h - i < cv.kh && 0 <= w - j < cv.kw {
      assert i + (h - i) == h && j + (w - j) == w;
    } else {
      assert v * 0.0 == 0.0;
    }
  }

  // A window is the part of the whole image its position meets.
  lemma WindowMeets(cv: Conv, x: Image, d: seq<real>, n: int, i: int, j: int, c: int)
    requires cv.Valid() && cv.Position(n, i, j)
    ensures Windows(cv, x, d, n)(i, j, c) == Inner(cv.H, cv.W, Meets(cv, x, d, n, c))(i, j)
  {
    var window := Window(cv, x, d, n, i, j, c);
    var row := Row(cv.W, Fix12(Meets(cv, x, d, n, c), i, j));
    forall ki | 0 <= ki < cv.kh ensures Row(cv.kw, window)(ki) == row(i + ki) { WindowRow(cv, x, d, n, i, j, c, i + ki); }
    SumSame(cv.kh, Row(cv.kw, window), q => row(i + q));
    SumWindow(cv.H, i, cv.kh, row);
    forall h: int ensures row(h) == if 0 <= h - i < cv.kh then row(h) else 0.0 { WindowRow(cv, x, d, n, i, j, c, h); }
    SumSame(cv.H, h => if 0 <= h - i < cv.kh then row(h) else 0.0, row);
  }

  lemma WindowRow(cv: Conv, x: Image, d: seq<real>, n: int, i: int, j: int, c: int, h: int)
    requires cv.Valid() && cv.Position(n, i, j)
    ensures Row(cv.W, Fix12(Meets(cv, x, d, n, c), i, j))(h) ==
            if 0 <= h - i < cv.kh then Row(cv.kw, Window(cv, x, d, n, i, j, c))(h - i) else 0.0
  {
    var window, meets := Window(cv, x, d, n, i, j, c), Fix12(Meets(cv, x, d, n, c), i, j);
    var line := w => meets(h, w);
    forall w: int ensures line(w) == if 0 <= h - i < cv.kh && 0 <= w - j < cv.kw then window(h - i, w - j) else 0.0 {
      MeetsAt(cv, x, d, n, i, j, c, h, w);
    }
    if 0 <= h - i < cv.kh {
      SumSame(cv.kw, kj => window(h - i, kj), q => line(j + q));
      SumWindow(cv.W, j, cv.kw, line);
      SumSame(cv.W, w => if 0 <= w - j < cv.kw then line(w) else 0.0, line);
    } else {
      SumSpike(cv.W, -1, 0.0, line);
    }
  }

  // One channel of one image: windows against d are pixels against the scatter.
  lemma ChannelAdjoint(cv: Conv, x: Image, d: seq<real>, n: int, c: int)
    requires cv.Valid() && 0 <= n < cv.N
    ensures Plane(cv.OH(), cv.OW(), Windows(cv, x, d, n))(c) == Sum(cv.H, Row(cv.W, Pixels(cv, x, d, n, c)))
  {
    var oh, ow, meets := cv.OH(), cv.OW(), Meets(cv, x, d, n, c);
    forall i, j | 0 <= i < oh && 0 <= j < ow ensures Fix3(Windows(cv, x, d, n), c)(i, j) == Inner(cv.H, cv.W, meets)(i, j) {
      WindowMeets(cv, x, d, n, i, j, c);
    }
    SumSame2(oh, ow, Fix3(Windows(cv, x, d, n), c), Inner(cv.H, cv.W, meets));
    SumSwapPairs(oh, ow, cv.H, cv.W, meets);
    forall h, w ensures Outer(oh, ow, meets)(h, w) == Pixels(cv, x, d, n, c)(h, w) { PixelMeets(cv, x, d, n, c, h, w); }
    SumSame2(cv.H, cv.W, Outer(oh, ow, meets), Pixels(cv, x, d, n, c));
  }

  lemma MeetsHits(cv: Conv, x: Image, d: seq<real>, n: int, c: int, h: int, w: int, i: int, j: int)
    requires cv.Valid()
    ensures Fix34(Meets(cv, x, d, n, c), h, w)(i, j) == x(n, c, h, w) * Hits(cv, d, n, c, h, w)(i, j)
  {
    var hit := Hit(cv, d, n, c, h, w, i, j);
    assert Hits(cv, d, n, c, h, w)(i, j) == hit;
    assert Meets(cv, x, d, n, c)(i, j, h, w) == x(n, c, h, w) * hit;
  }

  lemma AllMeetHits(cv: Conv, x: Image, d: seq<real>, n: int, c: int, h: int, w: int)
    requires cv.Valid()
    ensures forall i, j :: 0 <= i < cv.OH() && 0 <= j < cv.OW() ==>
              Fix34(Meets(cv, x, d, n, c), h, w)(i, j) == x(n, c, h, w) * Hits(cv, d, n, c, h, w)(i, j)
  {
    forall i, j | 0 <= i < cv.OH() && 0 <= j < cv.OW()
      ensures Fix34(Meets(cv, x, d, n, c), h, w)(i, j) == x(n, c, h, w) * Hits(cv, d, n, c, h, w)(i, j)
    {
      MeetsHits(cv, x, d, n, c, h, w, i, j);
    }
  }

  lemma MeetsScaled(cv: Conv, x: Image, d: seq<real>, n: int, c: int, h: int, w: int)
    requires cv.Valid()
    ensures Sum(cv.OH(), Row(cv.OW(), Fix34(Meets(cv, x, d, n, c), h, w))) ==
            x(n, c, h, w) * Sum(cv.OH(), Row(cv.OW(), Hits(cv, d, n, c, h, w)))
  {
    var meets, hits, v := Fix34(Meets(cv, x, d, n, c), h, w), Hits(cv, d, n, c, h, w), x(n, c, h, w);
    assert forall i, j :: 0 <= i < cv.OH() && 0 <= j < cv.OW() ==> meets(i, j) == v * hits(i, j) by { AllMeetHits(cv, x, d, n, c, h, w); }
    SumScale2(cv.OH(), cv.OW(), v, hits, meets);
  }

  // One pixel: its value times everything scattered to it.
  lemma PixelMeets(cv: Conv, x: Image, d: seq<real>, n: int, c: int, h: int, w: int)
    requires cv.Valid()
    ensures Outer(cv.OH(), cv.OW(), Meets(cv, x, d, n, c))(h, w) == Pixels(cv, x, d, n, c)(h, w)
  {
    MeetsScaled(cv, x, d, n, c, h, w);
  }

  // Row p of the patch matrix against row p of d.
  ghost function PatchDot(cv: Conv, x: Image, d: seq<real>): int -> real
    requires cv.Valid()
  {
    p => Sum(cv.S(), PatchTerm(cv, x, d, p))
  }

  ghost function PatchTerm(cv: Conv, x: Image, d: seq<real>, p: int): int -> real
    requires cv.Valid()
  {
    s => Patch(cv, x, p, s) * Load(d, p * cv.S() + s)
  }

  ghost function ImageDot(cv: Conv, x: Image, d: seq<real>): int -> real
    requires cv.Valid()
  {
    n => Sum(cv.Cin, c => Sum(cv.H, Row(cv.W, Pixels(cv, x, d, n, c))))
  }

  lemma PatchDotWindow(cv: Conv, x: Image, d: seq<real>, n: int, i: int, j: int, c: int)
    requires cv.Valid() && cv.Position(n, i, j) && 0 <= c < cv.Cin
    ensures var box := Box(cv.kh, cv.kw, PatchTerm(cv, x, d, cv.PIdx(n, i, j)));
      Row(cv.kh, Row2(cv.kw, box))(c) == Windows(cv, x, d, n)(i, j, c)
  {
    var term, window := PatchTerm(cv, x, d, cv.PIdx(n, i, j)), Window(cv, x, d, n, i, j, c);
    var box := Box(cv.kh, cv.kw, term);
    SumFix1(cv.kh, cv.kw, box, c);
    forall ki, kj | 0 <= ki < cv.kh && 0 <= kj < cv.kw ensures Fix1(box, c)(ki, kj) == window(ki, kj) {
      PatchTermAt(cv, x, d, n, i, j, c, ki, kj);
      assert Fix1(box, c)(ki, kj) == term(cv.SIdx(c, ki, kj));
    }
    SumSame2(cv.kh, cv.kw, Fix1(box, c), window);
  }

  lemma PatchTermAt(cv: Conv, x: Image, d: seq<real>, n: int, i: int, j: int, c: int, ki: int, kj: int)
    requires cv.Valid() && cv.Position(n, i, j) && cv.Offset(c, ki, kj)
    ensures PatchTerm(cv, x, d, cv.PIdx(n, i, j))(cv.SIdx(c, ki, kj)) == Window(cv, x, d, n, i, j, c)(ki, kj)
  {
    var p, s := cv.PIdx(n, i, j), cv.SIdx(c, ki, kj);
    PatchAt(cv, x, n, i, j, c, ki, kj);
    PatchTermIs(cv, x, d, p, s, x(n, c, i + ki, j + kj), p * cv.S() + s);
    WindowIs(cv, x, d, n, i, j, c, ki, kj, p * cv.S() + s);
  }

  lemma PatchTermIs(cv: Conv, x: Image, d: seq<real>, p: int, s: int, v: real, at: int)
    requires cv.Valid() && Patch(cv, x, p, s) == v && at == p * cv.S() + s
    ensures PatchTerm(cv, x, d, p)(s) == v * Load(d, at)
  {
  }

  lemma WindowIs(cv: Conv, x: Image, d: seq<real>, n: int, i: int, j: int, c: int, ki: int, kj: int, at: int)
    requires cv.Valid() && at == cv.PIdx(n, i, j) * cv.S() + cv.SIdx(c, ki, kj)
    ensures Window(cv, x, d, n, i, j, c)(ki, kj) == x(n, c, i + ki, j + kj) * Load(d, at)
  {
  }

  lemma PatchDotWindows(cv: Conv, x: Image, d: seq<real>, n: int, i: int, j: int)
    requires cv.Valid() && cv.Position(n, i, j)
    ensures PatchDot(cv, x, d)(cv.PIdx(n, i, j)) == Row2(cv.Cin, Windows(cv, x, d, n))(i, j)
  {
    var term, windows := PatchTerm(cv, x, d, cv.PIdx(n, i, j)), Windows(cv, x, d, n);
    var byChannel := Row(cv.kh, Row2(cv.kw, Box(cv.kh, cv.kw, term)));
    SumFlatten3(cv.Cin, cv.kh, cv.kw, term);
    forall c | 0 <= c < cv.Cin ensures byChannel(c) == windows(i, j, c) { PatchDotWindow(cv, x, d, n, i, j, c); }
    SumSame(cv.Cin, byChannel, c => windows(i, j, c));
  }

  lemma ImageRow(cv: Conv, x: Image, d: seq<real>, n: int, i: int, j: int)
    requires cv.Valid() && cv.Position(n, i, j)
    ensures Fix1(Box(cv.OH(), cv.OW(), PatchDot(cv, x, d)), n)(i, j) == Row2(cv.Cin, Windows(cv, x, d, n))(i, j)
  {
    var dot := PatchDot(cv, x, d);
    PatchDotWindows(cv, x, d, n, i, j);
    assert Fix1(Box(cv.OH(), cv.OW(), dot), n)(i, j) == dot(cv.PIdx(n, i, j));
  }

  // The output positions of one image against its channels.
  lemma ImageAdjoint(cv: Conv, x: Image, d: seq<real>, n: int)
    requires cv.Valid() && 0 <= n < cv.N
    ensures Row(cv.OH(), Row2(cv.OW(), Box(cv.OH(), cv.OW(), PatchDot(cv, x, d))))(n) == ImageDot(cv, x, d)(n)
  {
    var oh, ow, dot, windows := cv.OH(), cv.OW(), PatchDot(cv, x, d), Windows(cv, x, d, n);
    var box := Box(oh, ow, dot);
    var image := Fix1(box, n);
    SumFix1(oh, ow, box, n);
    forall i, j | 0 <= i < oh && 0 <= j < ow ensures image(i, j) == Row2(cv.Cin, windows)(i, j) {
      ImageRow(cv, x, d, n, i, j);
    }
    SumSame2(oh, ow, image, Row2(cv.Cin, windows));
    SumSwapInner(oh, ow, cv.Cin, windows);
    ChannelsAdjoint(cv, x, d, n);
  }

  lemma ChannelsAdjoint(cv: Conv, x: Image, d: seq<real>, n: int)
    requires cv.Valid() && 0 <= n < cv.N
    ensures Sum(cv.Cin, Plane(cv.OH(), cv.OW(), Windows(cv, x, d, n))) == ImageDot(cv, x, d)(n)
  {
    var planes := Plane(cv.OH(), cv.OW(), Windows(cv, x, d, n));
    forall c: int ensures planes(c) == Sum(cv.H, Row(cv.W, Pixels(cv, x, d, n, c))) { ChannelAdjoint(cv, x, d, n, c); }
    SumSame(cv.Cin, planes, c => Sum(cv.H, Row(cv.W, Pixels(cv, x, d, n, c))));
  }

  // im2col and col2im are adjoint: <cols(x), d> = <x, dx(d)> for every batch x,
  // every gradient d and every shape.
  lemma Adjoint(cv: Conv, x: Image, d: seq<real>)
    requires cv.Valid()
    ensures Sum(cv.P(), PatchDot(cv, x, d)) == Sum(cv.N, ImageDot(cv, x, d))
  {
    var byImage := Row(cv.OH(), Row2(cv.OW(), Box(cv.OH(), cv.OW(), PatchDot(cv, x, d))));
    SumFlatten3(cv.N, cv.OH(), cv.OW(), PatchDot(cv, x, d));
    forall n | 0 <= n < cv.N ensures byImage(n) == ImageDot(cv, x, d)(n) { ImageAdjoint(cv, x, d, n); }
    SumSame(cv.N, byImage, ImageDot(cv, x, d));
  }
}
