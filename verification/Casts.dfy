// Number types, and what converting a value to one does: exactly in the source,
// and to one integer and one float type in the target.
module Casts {
  import opened Digits

  datatype Width = W8 | W16 | W32 | W64

  datatype Kind = Float | Bool | Int(signed: bool, width: Width)

  // A source dtype, and whether its name is recognised as an integer type.
  datatype DType = DType(kind: Kind, named: bool)

  function Modulus(w: Width): int {
    match w
    case W8 => 0x100
    case W16 => 0x1_0000
    case W32 => 0x1_0000_0000
    case W64 => 0x1_0000_0000_0000_0000
  }

  function Low(k: Kind): int
    requires k.Int?
  {
    if k.signed then -(Modulus(k.width) / 2) else 0
  }

  // The values of an integer type.
  predicate InRange(k: Kind, n: int)
    requires k.Int?
  {
    Low(k) <= n < Low(k) + Modulus(k.width)
  }

  // The value an integer type keeps of n.
  function Wrap(k: Kind, n: int): int
    requires k.Int?
  {
    (n - Low(k)) % Modulus(k.width) + Low(k)
  }

  const INT32: Kind := Int(true, W32)

  // Towards zero.
  function Truncated(x: real): int {
    if x >= 0.0 then x.Floor else -((-x).Floor)
  }

  // What the source means by casting x to a type, rounding aside.
  function CastTo(k: Kind, x: real): real {
    match k
    case Float => x
    case Bool => if x != 0.0 then 1.0 else 0.0
    case Int(_, _) => Wrap(k, Truncated(x)) as real
  }

  // The target's conversions: to 32-bit integers, or to floats.
  function Convert(integral: bool, x: real): real {
    if integral then Wrap(INT32, Truncated(x)) as real else x
  }

  // The integer next to x on the side of zero.
  lemma TruncatedIs(x: real, n: int)
    ensures Truncated(x) == n <==>
            if x >= 0.0 then 0 <= n && n as real <= x < n as real + 1.0 else n <= 0 && n as real - 1.0 < x <= n as real
  {
    if x >= 0.0 {
      assert x.Floor as real <= x < x.Floor as real + 1.0;
      assert n as real <= x < n as real + 1.0 ==> n == x.Floor;
    } else {
      var y := -x;
      assert y.Floor as real <= y < y.Floor as real + 1.0;
      assert n as real - 1.0 < x <= n as real ==> -n == y.Floor;
    }
  }

  // The ranges of the eight integer types.
  lemma TypeRanges(n: int)
    ensures InRange(Int(false, W8), n) <==> 0 <= n <= 255
    ensures InRange(Int(true, W8), n) <==> -128 <= n <= 127
    ensures InRange(Int(false, W16), n) <==> 0 <= n <= 65535
    ensures InRange(Int(true, W16), n) <==> -32768 <= n <= 32767
    ensures InRange(Int(false, W32), n) <==> 0 <= n <= 4294967295
    ensures InRange(Int(true, W32), n) <==> -2147483648 <= n <= 2147483647
    ensures InRange(Int(false, W64), n) <==> 0 <= n <= 18446744073709551615
    ensures InRange(Int(true, W64), n) <==> -9223372036854775808 <= n <= 9223372036854775807
  {
  }

  // ---- when converting does what casting means ----

  // x survives as a value of the cast's type: n stands for the integer the
  // target makes of it.
  predicate Survives(dt: DType, x: real) {
    var n := Wrap(INT32, Truncated(x));
    match dt.kind
    case Float => dt.named ==> x == n as real
    case Bool => x == 0.0 || (if dt.named then n == 1 else x == 1.0)
    case Int(_, w) =>
      if !dt.named then x == Truncated(x) as real && InRange(dt.kind, Truncated(x))
      else if w.W64? then InRange(INT32, Wrap(dt.kind, Truncated(x)))
      else InRange(dt.kind, n)
  }

  lemma WrapFixed(k: Kind, n: int)
    requires k.Int?
    ensures InRange(k, Wrap(k, n))
    ensures Wrap(k, n) == n <==> InRange(k, n)
  {
  }

  // Numbers that differ by a multiple of the modulus wrap to the same value.
  lemma WrapShift(k: Kind, n: int, d: int)
    requires k.Int?
    ensures Wrap(k, n + d * Modulus(k.width)) == Wrap(k, n)
  {
    var m := Modulus(k.width);
    var a := n - Low(k);
    assert a == a / m * m + a % m;
    var q := a / m + d;
    assert a + d * m == q * m + a % m by { assert q * m == a / m * m + d * m; }
    Digit(q, m, a % m);
  }

  // How often the modulus was taken off.
  lemma WrapQuotient(k: Kind, n: int) returns (q: int)
    requires k.Int?
    ensures n == Wrap(k, n) + q * Modulus(k.width)
  {
    var m := Modulus(k.width);
    q := (n - Low(k)) / m;
    assert n - Low(k) == q * m + (n - Low(k)) % m;
  }

  // Wrapping to 32 bits first changes nothing for a type of at most 32 bits.
  lemma WrapNarrow(k: Kind, n: int)
    requires k.Int? && !k.width.W64?
    ensures Wrap(k, Wrap(INT32, n)) == Wrap(k, n)
  {
    var q := WrapQuotient(INT32, n);
    var m := Modulus(k.width);
    var c := if k.width.W8? then 0x100_0000 else if k.width.W16? then 0x1_0000 else 1;
    assert c * m == 0x1_0000_0000;
    assert q * c * m == q * 0x1_0000_0000;
    WrapShift(k, Wrap(INT32, n), q * c);
  }

  lemma WrapWide(k: Kind, n: int)
    requires k.Int? && k.width.W64?
    ensures Wrap(INT32, Wrap(k, n)) == Wrap(INT32, n)
  {
    var q := WrapQuotient(k, n);
    assert q * 0x1_0000_0000 * 0x1_0000_0000 == q * Modulus(k.width);
    WrapShift(INT32, Wrap(k, n), q * 0x1_0000_0000);
  }

  // A type keeps of n the one value in its range that differs from n by a
  // multiple of the number of its values.
  lemma WrapIff(k: Kind, n: int, m: int)
    requires k.Int?
    ensures Wrap(k, n) == m <==> InRange(k, m) && exists q: int :: n == m + q * Modulus(k.width)
  {
    var q := WrapQuotient(k, n);
    WrapFixed(k, n);
    if q': int :| InRange(k, m) && n == m + q' * Modulus(k.width) {
      WrapShift(k, m, q');
      WrapFixed(k, m);
    }
  }

  // The conversion keeps what the cast means exactly for the values that
  // survive.
  lemma CastKeptIff(dt: DType, x: real)
    ensures CastTo(dt.kind, x) == Convert(dt.named, x) <==> Survives(dt, x)
  {
    var t := Truncated(x);
    var n := Wrap(INT32, t);
    if dt.kind.Int? {
      WrapFixed(dt.kind, t);
      if dt.named {
        if dt.kind.width.W64? {
          WrapWide(dt.kind, t);
          WrapFixed(INT32, Wrap(dt.kind, t));
        } else {
          WrapNarrow(dt.kind, t);
          WrapFixed(dt.kind, n);
        }
      } else if x == t as real {
        assert CastTo(dt.kind, x) == x <==> Wrap(dt.kind, t) == t;
      } else {
        TruncatedInt(Wrap(dt.kind, t));
      }
    }
  }

  lemma TruncatedInt(n: int)
    ensures Truncated(n as real) == n
  {
  }

  // For a 32-bit integer n and a recognised integer type: exactly when n fits it.
  lemma IntKeptIff(k: Kind, n: int)
    requires k.Int? && InRange(INT32, n)
    ensures CastTo(k, n as real) == Convert(true, n as real) <==> InRange(k, n)
  {
    TruncatedInt(n);
    WrapFixed(INT32, n);
    WrapFixed(k, n);
  }

  // 300 to an unsigned byte is 44, not 300; 2 to a bool is 1, not 2.
  lemma LossyCasts()
    ensures CastTo(Int(false, W8), 300.0) == 44.0 && CastTo(Bool, 2.0) == 1.0
    ensures Convert(true, 300.0) == 300.0 && Convert(true, 2.0) == 2.0
  {
    assert Truncated(300.0) == 300 && Truncated(2.0) == 2;
    assert 300 % 0x100 == 44;
  }

  // ---- reinterpreting the bits of a value ----

  // A 32-bit float word with a finite value.
  predicate Finite(b: int) {
    0 <= b < 0x1_0000_0000 && b / 0x80_0000 % 0x100 != 0xFF
  }

  function Exponent(b: int): nat {
    b / 0x80_0000 % 0x100
  }

  function Fraction(b: int): nat {
    b % 0x80_0000
  }

  // The size of a float with exponent e and fraction f (IEEE 754 binary32).
  function Magnitude(e: nat, f: nat): real {
    if e == 0 then f as real / Pow2(149 + e) as real
    else if e < 150 then (0x80_0000 + f) as real / Pow2(150 - e) as real
    else ((0x80_0000 + f) * Pow2(e - 150)) as real
  }

  function FloatOf(b: int): real
    requires Finite(b)
  {
    var size := Magnitude(Exponent(b), Fraction(b));
    if b < 0x8000_0000 then size else -size
  }

  // The same word read as a signed integer.
  function IntOf(b: int): int {
    if b < 0x8000_0000 then b else b - 0x1_0000_0000
  }

  lemma WordParts(b: int)
    requires Finite(b)
    ensures Exponent(b) < 0xFF && Fraction(b) < 0x80_0000
    ensures IntOf(b) == Exponent(b) * 0x80_0000 + Fraction(b) - if b < 0x8000_0000 then 0 else 0x8000_0000
  {
    assert b == b / 0x80_0000 * 0x80_0000 + b % 0x80_0000;
  }

  lemma Quotient(x: real, p: real, y: real)
    requires p > 0.0 && 0.0 <= x < y * p
    ensures 0.0 <= x / p < y
  {
    var q := x / p;
    assert q * p == x;
    assert q >= y ==> q * p >= y * p;
    assert q < 0.0 ==> q * p < 0.0;
  }

  lemma {:induction false} Pow2AtLeast(n: nat, m: nat)
    requires m <= n
    ensures Pow2(m) <= Pow2(n)
  {
    if m < n { Pow2AtLeast(n - 1, m); }
  }

  lemma SmallPowers()
    ensures Pow2(1) == 2 && Pow2(2) == 4 && Pow2(3) == 8 && Pow2(4) == 16 && Pow2(5) == 32 && Pow2(6) == 64
    ensures Pow2(7) == 128 && Pow2(8) == 256 && Pow2(16) == 0x1_0000 && Pow2(24) == 0x100_0000
  {
    assert Pow2(4) == 16;
    assert Pow2(8) == 256;
    assert Pow2(12) == 0x1000;
    assert Pow2(16) == 0x1_0000;
    assert Pow2(20) == 0x10_0000;
    assert Pow2(24) == 0x100_0000;
  }

  // Floats below 2^23 in size read as integers that are larger.
  lemma SmallMagnitude(e: nat, f: nat)
    requires e < 150 && f < 0x80_0000
    ensures 0.0 <= Magnitude(e, f) < if e == 0 then 1.0 else 0x80_0000 as real
  {
    SmallPowers();
    if e == 0 {
      Pow2AtLeast(149 + e, 24);
      Quotient(f as real, Pow2(149 + e) as real, 1.0);
    } else {
      Pow2AtLeast(150 - e, 1);
      var p := Pow2(150 - e) as real;
      assert 0x80_0000 as real * p >= 0x80_0000 as real * 2.0;
      Quotient((0x80_0000 + f) as real, p, 0x80_0000 as real);
    }
  }

  // Larger ones are integers, and never the one their word reads as.
  lemma LargeMagnitude(k: nat, f: nat)
    requires k < 105 && f < 0x80_0000
    ensures (0x80_0000 + f) * Pow2(k) != (150 + k) * 0x80_0000 + f
    ensures (0x80_0000 + f) * Pow2(k) != (106 - k) * 0x80_0000 - f
  {
    SmallPowers();
    if k >= 8 {
      Pow2AtLeast(k, 8);
      HugeProduct(0x80_0000 + f, Pow2(k));
    } else {
      SmallShift(k, f, Pow2(k));
    }
  }

  lemma HugeProduct(a: int, p: int)
    requires a >= 0 && p >= 256
    ensures a * p >= a * 256
  {
  }

  lemma SmallShift(k: nat, f: nat, p: int)
    requires k < 8 && f < 0x80_0000
    requires p == [1, 2, 4, 8, 16, 32, 64, 128][k]
    ensures (0x80_0000 + f) * p != (150 + k) * 0x80_0000 + f
    ensures (0x80_0000 + f) * p != (106 - k) * 0x80_0000 - f
  {
    if k == 0 { assert p == 1; }
    else if k == 1 { assert p == 2; }
    else if k == 2 { assert p == 4; }
    else if k == 3 { assert p == 8; }
    else if k == 4 { assert p == 16; }
    else if k == 5 { assert p == 32; }
    else if k == 6 { assert p == 64; }
    else { assert p == 128; }
  }

  // No word but zero has the same value as a float and as an integer.
  lemma OnlyZeroAgrees(b: int)
    requires Finite(b) && b != 0
    ensures Truncated(FloatOf(b)) != IntOf(b)
  {
    var e, f := Exponent(b), Fraction(b);
    WordParts(b);
    if e < 150 {
      SmallMagnitude(e, f);
    } else {
      LargeMagnitude(e - 150, f);
      var size := (0x80_0000 + f) * Pow2(e - 150);
      TruncatedInt(size);
      TruncatedInt(-size);
      assert FloatOf(b) == if b < 0x8000_0000 then size as real else (-size) as real;
    }
  }

  lemma Halves(x: real, p: real)
    requires p > 0.0
    ensures x / p == 2.0 * (x / (2.0 * p))
  {
    var h := x / (2.0 * p);
    assert h * (2.0 * p) == x;
    assert (2.0 * h) * p == x;
    SameQuotient(x, p, 2.0 * h);
  }

  lemma SameQuotient(x: real, p: real, y: real)
    requires p > 0.0 && y * p == x
    ensures x / p == y
  {
    assert (x / p) * p == x;
    assert (x / p - y) * p == 0.0;
  }

  // Single precision without the formula: from 1 to 2 in steps of 2^-23, and
  // each exponent up doubles.
  lemma Binade(e: nat, f: nat)
    ensures e == 127 ==> Magnitude(e, f) == 1.0 + f as real / 8388608.0
    ensures 1 <= e ==> Magnitude(e + 1, f) == 2.0 * Magnitude(e, f)
  {
    var m := (0x80_0000 + f) as real;
    if 1 <= e < 150 {
      var p := Pow2(150 - e);
      assert p == 2 * Pow2(149 - e);
      Halves(m, Pow2(149 - e) as real);
      assert e == 149 ==> Pow2(149 - e) == 1 && Pow2(e + 1 - 150) == 1;
    }
    if 150 <= e {
      assert Pow2(e + 1 - 150) == 2 * Pow2(e - 150);
      Twice(0x80_0000 + f, Pow2(e - 150));
    }
    if e == 127 { UnitBinade(150 - e, m, f); }
  }

  lemma Twice(a: int, p: int)
    ensures a * (2 * p) == 2 * (a * p)
  {
  }

  lemma UnitBinade(k: nat, m: real, f: nat)
    requires k == 23 && m == 8388608.0 + f as real
    ensures m / Pow2(k) as real == 1.0 + f as real / 8388608.0
  {
    SmallPowers();
    assert Pow2(k + 1) == 2 * Pow2(k);
    var q := f as real / 8388608.0;
    assert q * 8388608.0 == f as real;
    SameQuotient(m, 8388608.0, 1.0 + q);
  }

  // Exponent zero goes down evenly to zero from where exponent one starts.
  lemma Subnormal(z: nat, e: nat, f: nat)
    requires z == 0 && e == 1
    ensures Magnitude(z, f) == Magnitude(e, f) - Magnitude(e, 0)
  {
    var p := Pow2(149 + z) as real;
    assert 150 - e == 149 + z;
    var x, y := f as real / p, 8388608.0 / p;
    assert x * p == f as real && y * p == 8388608.0;
    SameQuotient((0x80_0000 + f) as real, p, y + x);
  }

  // The fields of a word: 23 bits of fraction, 8 of exponent, and the sign.
  lemma WordFields(e: nat, f: nat)
    requires e < 255 && f < 8388608
    ensures var b := e * 8388608 + f;
      && Finite(b) && FloatOf(b) == Magnitude(e, f)
      && Finite(b + 0x8000_0000) && FloatOf(b + 0x8000_0000) == -Magnitude(e, f)
  {
    WordAt(e * 8388608 + f, e, f);
    WordAt((e + 256) * 8388608 + f, e + 256, f);
    assert (e + 256) % 0x100 == e;
  }

  lemma WordAt(b: int, q: int, f: nat)
    requires b == q * 8388608 + f && f < 8388608
    ensures b / 0x80_0000 == q && b % 0x80_0000 == f
  {
    Digit(q, 8388608, f);
  }

  lemma ZeroOver(p: real)
    requires p > 0.0
    ensures 0.0 / p == 0.0
  {
  }

  lemma ZeroMagnitude(e: nat, f: nat)
    requires e == 0 && f == 0
    ensures Magnitude(e, f) == 0.0
  {
    ZeroOver(Pow2(149 + e) as real);
    assert f as real == 0.0;
  }

  lemma ZeroWord(b: int)
    requires b == 0
    ensures Finite(b) && FloatOf(b) == 0.0 && IntOf(b) == 0 && Truncated(0.0) == 0
  {
    ZeroMagnitude(Exponent(b), Fraction(b));
  }

  // 1.0 has the word 0x3F80_0000, which the conversion reads as 1065353216.
  lemma OneWord()
    ensures Finite(0x3F80_0000) && FloatOf(0x3F80_0000) == 1.0 && IntOf(0x3F80_0000) == 1065353216
  {
    assert Exponent(0x3F80_0000) == 127 && Fraction(0x3F80_0000) == 0;
    assert Magnitude(127, 0) == 0x80_0000 as real / Pow2(23) as real;
    SmallPowers();
    assert Pow2(24) == 2 * Pow2(23);
  }
}
