// The reference loops of the convolution cases: im2col fills the patch matrix
// row by row, col2im scatters a gradient back pixel by pixel.
module ConvLoops {
  import opened Sums
  import opened Conv
  import opened Digits

  // ---- im2col ----

  // x is an N x Cin x H x W array with the pixels of image.
  ghost predicate ImageIn(cv: Conv, x: array4<real>, image: Image)
    reads x
  {
    && x.Length0 == cv.N && x.Length1 == cv.Cin && x.Length2 == cv.H && x.Length3 == cv.W
    && forall n, c, h, w :: Pixel(cv, n, c, h, w) ==> x[n, c, h, w] == image(n, c, h, w)
  }

  // Running counters: the last column of one row is followed by the first of the next.
  lemma NextRow(q: int, b: int)
    ensures q * b + b == (q + 1) * b + 0
  {
  }

  // The first `rows` rows of cols are those of the patch matrix.
  ghost predicate RowsDone(cv: Conv, x: Image, cols: array2<real>, rows: int)
    reads cols
    requires cv.Valid() && cols.Length0 == cv.P() && cols.Length1 == cv.S()
  {
    forall p, s :: 0 <= p < rows && p < cv.P() && 0 <= s < cv.S() ==> cols[p, s] == Patch(cv, x, p, s)
  }

  // A window that fits the image.
  predicate WindowFits(cv: Conv, nn: int, i: int, j: int) {
    0 <= nn < cv.N && 0 <= i && i + cv.kh <= cv.H && 0 <= j && j + cv.kw <= cv.W
  }

  // Pixel (c, ki, kj) of the window at (i, j) is in row (nn * OH + i) * OW + j and
  // column (c * kh + ki) * kw + kj.
  ghost predicate Copied(cv: Conv, x: array4<real>, cols: array2<real>, nn: int, i: int, j: int, c: int, ki: int, kj: int)
    reads x, cols
    requires x.Length0 == cv.N && x.Length1 == cv.Cin && x.Length2 == cv.H && x.Length3 == cv.W
    requires WindowFits(cv, nn, i, j) && cv.Offset(c, ki, kj)
  {
    var p, s := (nn * (cv.H - cv.kh + 1) + i) * (cv.W - cv.kw + 1) + j, (c * cv.kh + ki) * cv.kw + kj;
    0 <= p < cols.Length0 && 0 <= s < cols.Length1 && cols[p, s] == x[nn, c, i + ki, j + kj]
  }

  ghost predicate WindowCopied(cv: Conv, x: array4<real>, cols: array2<real>, nn: int, i: int, j: int)
    reads x, cols
    requires x.Length0 == cv.N && x.Length1 == cv.Cin && x.Length2 == cv.H && x.Length3 == cv.W && WindowFits(cv, nn, i, j)
  {
    forall c, ki, kj :: cv.Offset(c, ki, kj) ==> Copied(cv, x, cols, nn, i, j, c, ki, kj)
  }

  lemma DoneCopied(cv: Conv, x: array4<real>, cols: array2<real>, image: Image, rows: int, nn: int, i: int, j: int, c: int, ki: int, kj: int)
    requires cv.Valid() && ImageIn(cv, x, image) && cols.Length0 == cv.P() && cols.Length1 == cv.S()
    requires RowsDone(cv, image, cols, rows) && WindowFits(cv, nn, i, j) && cv.Offset(c, ki, kj) && cv.PIdx(nn, i, j) < rows
    ensures Copied(cv, x, cols, nn, i, j, c, ki, kj)
  {
    PIdxFits(cv, nn, i, j);
    SIdxFits(cv, c, ki, kj);
    PatchAt(cv, image, nn, i, j, c, ki, kj);
  }

  lemma DoneWindow(cv: Conv, x: array4<real>, cols: array2<real>, image: Image, rows: int, nn: int, i: int, j: int)
    requires cv.Valid() && ImageIn(cv, x, image) && cols.Length0 == cv.P() && cols.Length1 == cv.S()
    requires RowsDone(cv, image, cols, rows) && WindowFits(cv, nn, i, j) && cv.PIdx(nn, i, j) < rows
    ensures WindowCopied(cv, x, cols, nn, i, j)
  {
    forall c, ki, kj | cv.Offset(c, ki, kj) ensures Copied(cv, x, cols, nn, i, j, c, ki, kj) {
      DoneCopied(cv, x, cols, image, rows, nn, i, j, c, ki, kj);
    }
  }

  method FillRow(cv: Conv, x: array4<real>, cols: array2<real>, idx: int, nn: int, i: int, j: int, ghost image: Image)
    requires cv.Valid() && ImageIn(cv, x, image) && cols.Length0 == cv.P() && cols.Length1 == cv.S()
    requires cv.Position(nn, i, j) && idx == cv.PIdx(nn, i, j) && RowsDone(cv, image, cols, idx)
    modifies cols
    ensures RowsDone(cv, image, cols, idx + 1)
    ensures WindowCopied(cv, x, cols, nn, i, j)
  {
    PIdxFits(cv, nn, i, j);
    var s := 0;
    for c := 0 to cv.Cin
      invariant s == cv.SIdx(c, 0, 0) && RowsDone(cv, image, cols, idx)
      invariant forall s' :: 0 <= s' < s && s' < cv.S() ==> cols[idx, s'] == Patch(cv, image, idx, s')
    {
      for ki := 0 to cv.kh
        invariant s == cv.SIdx(c, ki, 0) && RowsDone(cv, image, cols, idx)
        invariant forall s' :: 0 <= s' < s && s' < cv.S() ==> cols[idx, s'] == Patch(cv, image, idx, s')
      {
        for kj := 0 to cv.kw
          invariant s == cv.SIdx(c, ki, kj) && RowsDone(cv, image, cols, idx)
          invariant forall s' :: 0 <= s' < s && s' < cv.S() ==> cols[idx, s'] == Patch(cv, image, idx, s')
        {
          SIdxFits(cv, c, ki, kj);
          PatchAt(cv, image, nn, i, j, c, ki, kj);
          cols[idx, s] := x[nn, c, i + ki, j + kj];
          s := s + 1;
        }
        NextRow(c * cv.kh + ki, cv.kw);
      }
      NextRow(c, cv.kh);
    }
    DoneWindow(cv, x, cols, image, idx + 1, nn, i, j);
  }

  // Every window that fits the image is copied out, pixel by pixel; image is
  // the same array as a function, and cols is its patch matrix.
  method Im2col(cv: Conv, x: array4<real>, ghost image: Image) returns (cols: array2<real>)
    requires cv.Valid() && ImageIn(cv, x, image)
    ensures cols.Length0 == cv.N * (cv.H - cv.kh + 1) * (cv.W - cv.kw + 1) && cols.Length1 == cv.Cin * cv.kh * cv.kw
    ensures forall nn, i, j :: WindowFits(cv, nn, i, j) ==> WindowCopied(cv, x, cols, nn, i, j)
    ensures RowsDone(cv, image, cols, cv.P())
  {
    cols := new real[cv.P(), cv.S()]((_, _) => 0.0);
    var idx := 0;
    for nn := 0 to cv.N
      invariant idx == cv.PIdx(nn, 0, 0) && RowsDone(cv, image, cols, idx)
    {
      for i := 0 to cv.OH()
        invariant idx == cv.PIdx(nn, i, 0) && RowsDone(cv, image, cols, idx)
      {
        for j := 0 to cv.OW()
          invariant idx == cv.PIdx(nn, i, j) && RowsDone(cv, image, cols, idx)
        {
          FillRow(cv, x, cols, idx, nn, i, j, image);
          idx := idx + 1;
        }
        NextRow(nn * cv.OH() + i, cv.OW());
      }
      NextRow(nn, cv.OH());
    }
    forall nn, i, j | WindowFits(cv, nn, i, j) ensures WindowCopied(cv, x, cols, nn, i, j) {
      PIdxFits(cv, nn, i, j);
      DoneWindow(cv, x, cols, image, cv.P(), nn, i, j);
    }
  }

  // ---- col2im ----

  ghost predicate GradientShape(cv: Conv, dx: array4<real>) {
    dx.Length0 == cv.N && dx.Length1 == cv.Cin && dx.Length2 == cv.H && dx.Length3 == cv.W
  }

  // Scatters one row of d; every pixel of image nn gains what this position
  // contributes to it.
  method ScatterRow(cv: Conv, d: seq<real>, dx: array4<real>, nn: int, oi: int, oj: int)
    requires cv.Valid() && |d| == cv.P() * cv.S() && GradientShape(cv, dx) && cv.Position(nn, oi, oj)
    modifies dx
    ensures forall n, c, h, w :: Pixel(cv, n, c, h, w) ==>
              dx[n, c, h, w] == old(dx[n, c, h, w]) + if n == nn then Hit(cv, d, n, c, h, w, oi, oj) else 0.0
  {
    var p := (nn * cv.OH() + oi) * cv.OW() + oj;
    for cc := 0 to cv.Cin
      invariant forall n, c, h, w :: Pixel(cv, n, c, h, w) ==>
                  dx[n, c, h, w] == old(dx[n, c, h, w]) + if n == nn && c < cc then Hit(cv, d, n, c, h, w, oi, oj) else 0.0
    {
      for ki := 0 to cv.kh
        invariant forall n, c, h, w :: Pixel(cv, n, c, h, w) ==>
                    dx[n, c, h, w] == old(dx[n, c, h, w]) +
                      if n == nn && (c < cc || (c == cc && h - oi < ki)) then Hit(cv, d, n, c, h, w, oi, oj) else 0.0
      {
        for kj := 0 to cv.kw
          invariant forall n, c, h, w :: Pixel(cv, n, c, h, w) ==>
                      dx[n, c, h, w] == old(dx[n, c, h, w]) +
                        if n == nn && (c < cc || (c == cc && (h - oi < ki || (h - oi == ki && w - oj < kj))))
                        then Hit(cv, d, n, c, h, w, oi, oj) else 0.0
        {
          var s := (cc * cv.kh + ki) * cv.kw + kj;
          PIdxFits(cv, nn, oi, oj);
          SIdxFits(cv, cc, ki, kj);
          OffsetBelow(p, cv.P(), cv.S(), s);
          assert Hit(cv, d, nn, cc, oi + ki, oj + kj, oi, oj) == d[p * cv.S() + s];
          dx[nn, cc, oi + ki, oj + kj] := dx[nn, cc, oi + ki, oj + kj] + d[p * cv.S() + s];
        }
      }
    }
  }

  // What a pixel holds after the positions up to (nn, oi, oj), exclusive.
  ghost function Partial(cv: Conv, d: seq<real>, nn: int, oi: nat, oj: nat, n: int, c: int, h: int, w: int): real
    requires cv.Valid()
  {
    if n < nn then Scattered(cv, d, n, c, h, w)
    else if n > nn then 0.0
    else
      var hits := Hits(cv, d, n, c, h, w);
      Sum(oi, Row(cv.OW(), hits)) + Sum(oj, j => hits(oi, j))
  }

  lemma PartialNext(cv: Conv, d: seq<real>, nn: int, oi: nat, n: int, c: int, h: int, w: int)
    requires cv.Valid()
    ensures Partial(cv, d, nn, oi, cv.OW(), n, c, h, w) == Partial(cv, d, nn, oi + 1, 0, n, c, h, w)
    ensures Partial(cv, d, nn, cv.OH(), 0, n, c, h, w) == Partial(cv, d, nn + 1, 0, 0, n, c, h, w)
  {
  }

  // Afterwards every pixel holds its scattered sum.
  method Col2im(cv: Conv, d: seq<real>) returns (dx: array4<real>)
    requires cv.Valid() && |d| == cv.P() * cv.S()
    ensures GradientShape(cv, dx)
    ensures forall n, c, h, w :: Pixel(cv, n, c, h, w) ==> dx[n, c, h, w] == Scattered(cv, d, n, c, h, w)
  {
    dx := new real[cv.N, cv.Cin, cv.H, cv.W]((_, _, _, _) => 0.0);
    for nn := 0 to cv.N
      invariant GradientShape(cv, dx)
      invariant forall n, c, h, w :: Pixel(cv, n, c, h, w) ==> dx[n, c, h, w] == Partial(cv, d, nn, 0, 0, n, c, h, w)
    {
      for oi := 0 to cv.OH()
        invariant forall n, c, h, w :: Pixel(cv, n, c, h, w) ==> dx[n, c, h, w] == Partial(cv, d, nn, oi, 0, n, c, h, w)
      {
        for oj := 0 to cv.OW()
          invariant forall n, c, h, w :: Pixel(cv, n, c, h, w) ==> dx[n, c, h, w] == Partial(cv, d, nn, oi, oj, n, c, h, w)
        {
          ScatterRow(cv, d, dx, nn, oi, oj);
        }
        forall n, c, h, w | Pixel(cv, n, c, h, w) ensures dx[n, c, h, w] == Partial(cv, d, nn, oi + 1, 0, n, c, h, w) {
          PartialNext(cv, d, nn, oi, n, c, h, w);
        }
      }
      forall n, c, h, w | Pixel(cv, n, c, h, w) ensures dx[n, c, h, w] == Partial(cv, d, nn + 1, 0, 0, n, c, h, w) {
        PartialNext(cv, d, nn, 0, n, c, h, w);
      }
    }
  }
}
