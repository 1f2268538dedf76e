/** Bitwise operators of the source on unsigned numbers of any width. */
module Bits {

  function Pow2(k: nat): (p: nat)
    ensures p > 0
  {
    if k == 0 then 1 else 2 * Pow2(k - 1)
  }

  predicate Odd(a: nat) { a % 2 == 1 }

  function Digit(b: bool): nat { if b then 1 else 0 }

  /** `a | b` */
  function Or(a: nat, b: nat): (r: nat)
    ensures r <= a + b
    decreases a + b
  {
    if a == 0 && b == 0 then 0 else 2 * Or(a / 2, b / 2) + Digit(Odd(a) || Odd(b))
  }

  /** `a & b` */
  function And(a: nat, b: nat): (r: nat)
    ensures r <= a && r <= b
    decreases a + b
  {
    if a == 0 && b == 0 then 0 else 2 * And(a / 2, b / 2) + Digit(Odd(a) && Odd(b))
  }

  /** `a & ~b` */
  function AndNot(a: nat, b: nat): (r: nat)
    ensures r <= a
    decreases a + b
  {
    if a == 0 && b == 0 then 0 else 2 * AndNot(a / 2, b / 2) + Digit(Odd(a) && !Odd(b))
  }

  lemma DivMod(a: nat, m: nat)
    requires m > 0
    ensures 0 <= a / m <= a && 0 <= a % m < m && a % m <= a && a == m * (a / m) + a % m
  {
    var q := a / m;
    assert a == m * q + a % m;
    MulGrows(m, if q < 0 then -q else q);
  }

  lemma MulGrows(m: nat, q: nat)
    requires m > 0
    ensures m * q >= q && (q > 0 ==> m * q >= m)
  {
    assert (m - 1) * q >= 0;
    assert q > 0 ==> m * (q - 1) >= 0;
  }

  lemma MulLess(a: nat, b: nat, m: nat)
    requires m > 0 && a < b
    ensures a * m < b * m
  {
    MulGrows(m, b - a);
    assert m * (b - a) == b * m - a * m;
  }

  /** `a << k` */
  function Shl(a: nat, k: nat): nat {
    MulGrows(Pow2(k), a); Pow2(k) * a
  }

  /** `a >> k` */
  function High(a: nat, k: nat): (r: nat)
    ensures r <= a
  {
    DivMod(a, Pow2(k)); a / Pow2(k)
  }

  /** The `k` low digits: `a & ((1 << k) - 1)`, as `LowMask` shows. */
  function Low(a: nat, k: nat): (r: nat)
    ensures r < Pow2(k) && r <= a
  {
    DivMod(a, Pow2(k)); a % Pow2(k)
  }

  /** The others: `a & ~((1 << k) - 1)`. */
  function Clear(a: nat, k: nat): (r: nat)
    ensures r <= a && r + Low(a, k) == a
  {
    a - Low(a, k)
  }

  lemma ModHalf(a: nat, m: nat)
    requires m > 0
    ensures a % (2 * m) == 2 * ((a / 2) % m) + a % 2
  {
    var q, r := a / 2 / m, (a / 2) % m;
    assert a == 2 * m * q + (2 * r + a % 2);
    ModUnique(a, 2 * m, q, 2 * r + a % 2);
  }

  lemma ModUnique(a: nat, m: nat, q: nat, r: nat)
    requires m > 0 && r < m && a == m * q + r
    ensures a % m == r && a / m == q
  {
    var d := a / m - q;
    assert d > 0 ==> m * d >= m;
    assert d < 0 ==> m * d + m <= 0;
    assert m * d == r - a % m;
  }

  /** Multiples of `m` and what may be added to them. */
  lemma Multiple(a: nat, m: nat, r: nat)
    requires m > 0 && r < m
    ensures (a - a % m) % m == 0 && (a - a % m + r) % m == r && (a - a % m + r) / m == a / m
  {
    var q := a / m;
    assert a - a % m == m * q;
    ModUnique(m * q, m, q, 0);
    ModUnique(m * q + r, m, q, r);
  }

  lemma MaskStep(a: nat, p: nat)
    requires p > 0
    ensures And(a, 2 * p - 1) == 2 * And(a / 2, p - 1) + a % 2
    ensures AndNot(a, 2 * p - 1) == 2 * AndNot(a / 2, p - 1)
    ensures Or(a, 2 * p - 1) == 2 * Or(a / 2, p - 1) + 1
  {
    assert (2 * p - 1) / 2 == p - 1 && Odd(2 * p - 1);
  }

  ghost predicate Masks(a: nat, p: nat)
    requires p > 0
  {
    && And(a, p - 1) == a % p
    && AndNot(a, p - 1) == a - a % p
    && Or(a, p - 1) == a - a % p + p - 1
  }

  /** Masks of the form `2^k - 1` cut a number into quotient and remainder. */
  lemma {:induction false} LowMask(a: nat, k: nat)
    ensures Masks(a, Pow2(k))
  {
    if k == 0 {
      Identity(a);
    } else {
      hide Masks;
      LowMask(a / 2, k - 1);
      MaskHalf(a, Pow2(k - 1));
    }
  }

  lemma MaskHalf(a: nat, p: nat)
    requires p > 0 && Masks(a / 2, p)
    ensures Masks(a, 2 * p)
  {
    MaskStep(a, p);
    ModHalf(a, p);
    hide And, AndNot, Or;
    var half, rest := a / 2, a % 2;
    assert a == 2 * half + rest;
  }

  lemma {:induction false} Identity(a: nat)
    ensures And(a, 0) == 0 && AndNot(a, 0) == a && Or(a, 0) == a
  {
    if a == 0 {
    } else {
      Identity(a / 2);
    }
  }

  lemma {:induction false} OrCommutes(a: nat, b: nat)
    ensures Or(a, b) == Or(b, a)
    decreases a + b
  {
    if a > 0 || b > 0 { OrCommutes(a / 2, b / 2); }
  }

  /** Numbers without common digits are added by `|`. */
  lemma {:induction false} OrAdds(a: nat, b: nat, k: nat)
    requires a % Pow2(k) == 0 && b < Pow2(k)
    ensures Or(a, b) == a + b
  {
    if k == 0 {
      Identity(a);
    } else if a > 0 || b > 0 {
      ModHalf(a, Pow2(k - 1));
      OrAdds(a / 2, b / 2, k - 1);
    }
  }

  lemma {:induction false} Pow2Sum(a: nat, b: nat)
    ensures Pow2(a + b) == Pow2(a) * Pow2(b)
  {
    if a == 0 {
    } else {
      Pow2Sum(a - 1, b);
    }
  }

  lemma {:induction false} Pow2Grows(a: nat, b: nat)
    requires a <= b
    ensures Pow2(a) <= Pow2(b) && (a < b ==> 2 * Pow2(a) <= Pow2(b))
  {
    if a == b {
    } else {
      Pow2Grows(a, b - 1);
    }
  }

  /** Cutting digits off at two places. */
  lemma ModMul(a: nat, m: nat, k: nat)
    requires m > 0 && k > 0
    ensures a % (m * k) == m * ((a / m) % k) + a % m && a / (m * k) == a / m / k
  {
    var b, s := a / m, a % m;
    var q, r := b / k, b % k;
    assert a == m * b + s;
    assert b == k * q + r;
    Distribute(m, k * q, r);
    Associate(m, k, q);
    Below(m, k, r, s);
    ModUnique(a, m * k, q, m * r + s);
  }

  lemma Distribute(m: nat, x: nat, r: nat)
    ensures m * (x + r) == m * x + m * r
  {
  }

  lemma Associate(m: nat, k: nat, q: nat)
    ensures m * (k * q) == m * k * q
  {
  }

  lemma Below(m: nat, k: nat, r: nat, s: nat)
    requires s < m && r < k
    ensures m * r + s < m * k
  {
    MulGrows(m, k - r);
    Distribute(m, k - r, r);
  }

  /** Numbers to base 256 */
  function Power256(n: nat): (p: nat)
    ensures p > 0
  {
    if n == 0 then 1 else 256 * Power256(n - 1)
  }

  lemma Power256Step(v: nat, n: nat)
    requires v < Power256(n + 1)
    ensures v / 256 < Power256(n)
  {
  }

  /** Digits move down when the lowest one is cut off. */
  lemma DigitAbove(v: nat, k: nat)
    ensures v / Power256(k + 1) == v / 256 / Power256(k)
  {
    ModMul(v, 256, Power256(k));
  }
}
