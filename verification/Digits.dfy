// Quotients and remainders of mixed-radix offsets.
module Digits {

  lemma TimesAway(b: int, k: int)
    requires b > 0
    ensures k >= 1 ==> b * k >= b
    ensures k <= -1 ==> b * k <= -b
  {
  }

  lemma DigitZero(k: int, b: int, r: int)
    requires b > 0 && b * k == r && -b < r < b
    ensures k == 0
  {
    TimesAway(b, k);
  }

  // One digit: quotient and remainder are unique.
  lemma Digit(q: int, b: int, j: int)
    requires 0 <= j < b
    ensures (q * b + j) / b == q && (q * b + j) % b == j
  {
    var p := q * b + j;
    assert p == b * (p / b) + p % b;
    assert b * (q - p / b) == p % b - j;
    DigitZero(q - p / b, b, p % b - j);
  }

  lemma OffsetBelow(q: int, a: int, b: int, j: int)
    requires 0 <= q < a && 0 <= j < b
    ensures 0 <= q * b + j < a * b
  {
    assert q * b <= (a - 1) * b == a * b - b;
    assert q * b >= 0;
  }

  lemma QuotientBelow(k: int, a: int, n: int)
    requires 0 <= k < a * n && 0 <= n
    ensures n > 0 && 0 <= k / n < a && 0 <= k % n < n && k == k / n * n + k % n
  {
    assert n == 0 ==> a * n == 0;
    var q := k / n;
    assert q >= a ==> (q - a) * n >= 0;
    assert q * n == (q - a) * n + a * n;
  }

  function Pow2(i: nat): (p: nat)
    ensures p >= 1
  {
    if i == 0 then 1 else 2 * Pow2(i - 1)
  }
}
