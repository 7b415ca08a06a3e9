// Finite sums of reals and the laws used to rearrange them.
module Sums {

  ghost function Sum(n: nat, f: int -> real): real {
    if n == 0 then 0.0 else Sum(n - 1, f) + f(n - 1)
  }

  lemma {:induction false} SumSame(n: nat, f: int -> real, g: int -> real)
    requires forall i :: 0 <= i < n ==> f(i) == g(i)
    ensures Sum(n, f) == Sum(n, g)
  {
    if n > 0 { SumSame(n - 1, f, g); }
  }

  lemma {:induction false} SumPlus(n: nat, f: int -> real, g: int -> real, h: int -> real)
    requires forall i :: 0 <= i < n ==> h(i) == f(i) + g(i)
    ensures Sum(n, h) == Sum(n, f) + Sum(n, g)
  {
    if n > 0 { SumPlus(n - 1, f, g, h); }
  }

  lemma {:induction false} SumScale(n: nat, c: real, f: int -> real, g: int -> real)
    requires forall i :: 0 <= i < n ==> g(i) == c * f(i)
    ensures Sum(n, g) == c * Sum(n, f)
  {
    if n > 0 {
      SumScale(n - 1, c, f, g);
      assert c * (Sum(n - 1, f) + f(n - 1)) == c * Sum(n - 1, f) + c * f(n - 1);
    }
  }

  // Only position k contributes.
  lemma {:induction false} SumSpike(n: nat, k: int, v: real, f: int -> real)
    requires forall i :: 0 <= i < n ==> f(i) == if i == k then v else 0.0
    ensures Sum(n, f) == if 0 <= k < n then v else 0.0
  {
    if n > 0 { SumSpike(n - 1, k, v, f); }
  }

  ghost function Row(m: nat, f: (int, int) -> real): int -> real {
    i => Sum(m, j => f(i, j))
  }

  ghost function Flip(f: (int, int) -> real): (int, int) -> real {
    (j, i) => f(i, j)
  }

  lemma {:induction false} SumSwap(n: nat, m: nat, f: (int, int) -> real)
    ensures Sum(n, Row(m, f)) == Sum(m, Row(n, Flip(f)))
  {
    if n == 0 {
      SumSpike(m, -1, 0.0, Row(0, Flip(f)));
    } else {
      SumSwap(n - 1, m, f);
      SumPlus(m, Row(n - 1, Flip(f)), j => f(n - 1, j), Row(n, Flip(f)));
    }
  }

  // A sum over a rectangle read row by row.
  lemma {:induction false} SumFlatten(a: nat, b: nat, f: int -> real)
    ensures Sum(a * b, f) == Sum(a, Row(b, (i, j) => f(i * b + j)))
  {
    if a > 0 {
      SumFlatten(a - 1, b, f);
      assert a * b == (a - 1) * b + b;
      SumSplit((a - 1) * b, b, f);
      SumSame(b, j => f((a - 1) * b + j), j => ((i, j) => f(i * b + j))(a - 1, j));
    }
  }

  lemma {:induction false} SumSplit(a: nat, b: nat, f: int -> real)
    ensures Sum(a + b, f) == Sum(a, f) + Sum(b, j => f(a + j))
  {
    if b > 0 { SumSplit(a, b - 1, f); }
  }

  // Substituting q for w - j turns a window over j into a window over q.
  lemma {:induction false} SumReindex(m: nat, k: nat, w: int, g: int -> real)
    ensures Sum(m, j => if 0 <= w - j < k then g(j) else 0.0) ==
            Sum(k, q => if 0 <= w - q < m then g(w - q) else 0.0)
  {
    if m == 0 {
      SumSpike(k, -1, 0.0, q => if 0 <= w - q < 0 then g(w - q) else 0.0);
    } else {
      SumReindex(m - 1, k, w, g);
      var spike := q => if q == w - (m - 1) then g(m - 1) else 0.0;
      SumSpike(k, w - (m - 1), g(m - 1), spike);
      SumPlus(k, q => if 0 <= w - q < m - 1 then g(w - q) else 0.0, spike, q => if 0 <= w - q < m then g(w - q) else 0.0);
    }
  }

  // A window of k positions from i on, seen from the whole range.
  lemma {:induction false} SumWindow(n: nat, i: nat, k: nat, g: int -> real)
    requires i + k <= n
    ensures Sum(k, q => g(i + q)) == Sum(n, h => if 0 <= h - i < k then g(h) else 0.0)
  {
    if n == 0 {
    } else if i + k < n {
      SumWindow(n - 1, i, k, g);
    } else if k > 0 {
      SumWindow(n - 1, i, k - 1, g);
      SumSame(n - 1, h => if 0 <= h - i < k - 1 then g(h) else 0.0, h => if 0 <= h - i < k then g(h) else 0.0);
    } else {
      SumSpike(n, -1, 0.0, h => if 0 <= h - i < 0 then g(h) else 0.0);
    }
  }

  lemma SumSame2(n: nat, m: nat, f: (int, int) -> real, g: (int, int) -> real)
    requires forall i, j :: 0 <= i < n && 0 <= j < m ==> f(i, j) == g(i, j)
    ensures Sum(n, Row(m, f)) == Sum(n, Row(m, g))
  {
    forall i | 0 <= i < n ensures Row(m, f)(i) == Row(m, g)(i) { SumSame(m, j => f(i, j), j => g(i, j)); }
    SumSame(n, Row(m, f), Row(m, g));
  }

  lemma SumScale2(n: nat, m: nat, c: real, f: (int, int) -> real, g: (int, int) -> real)
    requires forall i, j :: 0 <= i < n && 0 <= j < m ==> g(i, j) == c * f(i, j)
    ensures Sum(n, Row(m, g)) == c * Sum(n, Row(m, f))
  {
    forall i | 0 <= i < n ensures Row(m, g)(i) == c * Row(m, f)(i) { SumScale(m, c, j => f(i, j), j => g(i, j)); }
    SumScale(n, c, Row(m, f), Row(m, g));
  }

  // The last of three indices summed first, or fixed.
  ghost function Row2(m: nat, f: (int, int, int) -> real): (int, int) -> real {
    (i, j) => Sum(m, k => f(i, j, k))
  }

  ghost function Fix3(f: (int, int, int) -> real, k: int): (int, int) -> real {
    (i, j) => f(i, j, k)
  }

  ghost function Fix1(f: (int, int, int) -> real, i: int): (int, int) -> real {
    (j, k) => f(i, j, k)
  }

  ghost function Plane(a: nat, b: nat, f: (int, int, int) -> real): int -> real {
    k => Sum(a, Row(b, Fix3(f, k)))
  }

  ghost function Line(b: nat, f: (int, int, int) -> real): (int, int) -> real {
    (i, k) => Sum(b, j => f(i, j, k))
  }

  // The innermost of three sums may be taken first.
  lemma SumSwapInner(a: nat, b: nat, m: nat, f: (int, int, int) -> real)
    ensures Sum(a, Row(b, Row2(m, f))) == Sum(m, Plane(a, b, f))
  {
    var line := Line(b, f);
    forall i | 0 <= i < a ensures Row(b, Row2(m, f))(i) == Row(m, line)(i) {
      var g := Fix1(f, i);
      SumFix1(b, m, f, i);
      SumSwap(b, m, g);
      forall k: int ensures Row(b, Flip(g))(k) == line(i, k) { SumSame(b, j => Flip(g)(k, j), j => f(i, j, k)); }
      SumSame(m, Row(b, Flip(g)), k => line(i, k));
    }
    SumSame(a, Row(b, Row2(m, f)), Row(m, line));
    SumSwap(a, m, line);
    forall k: int ensures Row(a, Flip(line))(k) == Plane(a, b, f)(k) {
      var g := Fix3(f, k);
      forall i: int ensures Flip(line)(k, i) == Row(b, g)(i) { SumSame(b, j => f(i, j, k), j => g(i, j)); }
      SumSame(a, i => Flip(line)(k, i), Row(b, g));
    }
    SumSame(m, Row(a, Flip(line)), Plane(a, b, f));
  }

  ghost function Fix12(f: (int, int, int, int) -> real, i: int, j: int): (int, int) -> real {
    (h, w) => f(i, j, h, w)
  }

  ghost function Fix34(f: (int, int, int, int) -> real, h: int, w: int): (int, int) -> real {
    (i, j) => f(i, j, h, w)
  }

  ghost function Fix4(f: (int, int, int, int) -> real, h: int): (int, int, int) -> real {
    (i, j, w) => f(i, j, h, w)
  }

  ghost function Last(n: nat, f: (int, int, int, int) -> real): (int, int, int) -> real {
    (i, j, h) => Sum(n, w => f(i, j, h, w))
  }

  ghost function Inner(m: nat, n: nat, f: (int, int, int, int) -> real): (int, int) -> real {
    (i, j) => Sum(m, Row(n, Fix12(f, i, j)))
  }

  ghost function Outer(a: nat, b: nat, f: (int, int, int, int) -> real): (int, int) -> real {
    (h, w) => Sum(a, Row(b, Fix34(f, h, w)))
  }

  // Two pairs of sums may be exchanged.
  lemma SumSwapPairs(a: nat, b: nat, m: nat, n: nat, f: (int, int, int, int) -> real)
    ensures Sum(a, Row(b, Inner(m, n, f))) == Sum(m, Row(n, Outer(a, b, f)))
  {
    var last := Last(n, f);
    forall i, j ensures Inner(m, n, f)(i, j) == Row2(m, last)(i, j) {
      var g := Fix12(f, i, j);
      forall h: int ensures Row(n, g)(h) == last(i, j, h) { SumSame(n, w => g(h, w), w => f(i, j, h, w)); }
      SumSame(m, Row(n, g), h => last(i, j, h));
    }
    SumSame2(a, b, Inner(m, n, f), Row2(m, last));
    SumSwapInner(a, b, m, last);
    forall h: int ensures Plane(a, b, last)(h) == Row(n, Outer(a, b, f))(h) { SumSwapRow(a, b, n, f, h); }
    SumSame(m, Plane(a, b, last), Row(n, Outer(a, b, f)));
  }

  lemma SumSwapRow(a: nat, b: nat, n: nat, f: (int, int, int, int) -> real, h: int)
    ensures Plane(a, b, Last(n, f))(h) == Row(n, Outer(a, b, f))(h)
  {
    var g, last := Fix4(f, h), Last(n, f);
    forall i, j ensures Fix3(last, h)(i, j) == Row2(n, g)(i, j) { SumSame(n, w => f(i, j, h, w), w => g(i, j, w)); }
    SumSame2(a, b, Fix3(last, h), Row2(n, g));
    SumSwapInner(a, b, n, g);
    forall w: int ensures Plane(a, b, g)(w) == Outer(a, b, f)(h, w) { SumSame2(a, b, Fix3(g, w), Fix34(f, h, w)); }
    SumSame(n, Plane(a, b, g), w => Outer(a, b, f)(h, w));
  }

  lemma SumFix1(a: nat, b: nat, f: (int, int, int) -> real, i: int)
    ensures Row(a, Row2(b, f))(i) == Sum(a, Row(b, Fix1(f, i)))
  {
    var g := Fix1(f, i);
    forall j: int ensures Row2(b, f)(i, j) == Row(b, g)(j) { SumSame(b, k => f(i, j, k), k => g(j, k)); }
    SumSame(a, j => Row2(b, f)(i, j), Row(b, g));
  }

  ghost function Box(b: nat, c: nat, g: int -> real): (int, int, int) -> real {
    (i, j, k) => g((i * b + j) * c + k)
  }

  // A sum over a box read in row-major order.
  lemma SumFlatten3(a: nat, b: nat, c: nat, g: int -> real)
    ensures Sum(a * b * c, g) == Sum(a, Row(b, Row2(c, Box(b, c, g))))
  {
    var f, rows := Box(b, c, g), Row(c, (q, k) => g(q * c + k));
    SumFlatten(a * b, c, g);
    SumFlatten(a, b, rows);
    var two := (i: int, j: int) => rows(i * b + j);
    forall i, j ensures two(i, j) == Row2(c, f)(i, j) {
      SumSame(c, k => ((q, k) => g(q * c + k))(i * b + j, k), k => f(i, j, k));
    }
    SumSame2(a, b, two, Row2(c, f));
  }
}
