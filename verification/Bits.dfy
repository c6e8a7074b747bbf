/** The mask-based alignment used both for guest pages and for encoded fields. */
module Bits {

  function Bit(b: bool): nat { if b then 1 else 0 }

  /** `x &^ m`: the bits of `x` that are not set in `m`. */
  function AndNot(x: nat, m: nat): nat
    decreases x
  {
    if x == 0 then 0
    else 2 * AndNot(x / 2, m / 2) + (if x % 2 == 1 && m % 2 == 0 then 1 else 0)
  }

  /** `(a + b - 1) &^ (b - 1)`.  At `b == 0` the mask is all ones, so the result is 0. */
  function Align(a: nat, b: nat): nat {
    if b == 0 then 0 else AndNot(a + b - 1, b - 1)
  }

  function Pow2(k: nat): nat {
    if k == 0 then 1 else 2 * Pow2(k - 1)
  }

  lemma {:induction false} AndNotBounds(x: nat, m: nat)
    ensures AndNot(x, m) <= x <= AndNot(x, m) + m
    decreases x
  {
    if x == 0 {
    } else {
      AndNotBounds(x / 2, m / 2);
    }
  }

  /** Aligning to any positive `b`, a power of two or not, never moves down and adds less than `b`;
      aligning to 0 sends every position back to 0. */
  lemma AlignBounds(a: nat, b: nat)
    ensures b > 0 ==> a <= Align(a, b) < a + b
    ensures b == 0 ==> Align(a, b) == 0
  {
    if b > 0 {
      AndNotBounds(a + b - 1, b - 1);
    }
  }

  lemma {:induction false} ClearLowBits(x: nat, k: nat)
    ensures Pow2(k) > 0
    ensures AndNot(x, Pow2(k) - 1) == x / Pow2(k) * Pow2(k)
    decreases k
  {
    if k == 0 {
      KeepAll(x);
    } else {
      hide AndNot;
      var p := Pow2(k - 1);
      ClearLowBits(x / 2, k - 1);
      HalveTwice(x, p);
      HalveMask(x, p);
      Double(x / 2 / p, p);
    }
  }

  lemma Double(q: int, p: int)
    ensures 2 * (q * p) == q * (2 * p)
  {
  }

  lemma HalveMask(x: nat, p: nat)
    requires p > 0
    ensures AndNot(x, 2 * p - 1) == 2 * AndNot(x / 2, p - 1)
  {
    assert (2 * p - 1) / 2 == p - 1;
  }

  lemma HalveTwice(x: nat, p: nat)
    requires p > 0
    ensures x / 2 / p == x / (2 * p)
  {
    var q := x / 2 / p;
    assert x / 2 == q * p + x / 2 % p;
    assert x == (2 * p) * q + (2 * (x / 2 % p) + x % 2);
    DivUnique(x, 2 * p, q, 2 * (x / 2 % p) + x % 2);
  }

  lemma DivTwice(x: nat, d: nat, p: nat)
    requires d > 0 && p > 0
    ensures d * p > 0 && x / d / p == x / (d * p)
  {
    var q, r := x / d / p, x / d % p;
    assert x / d == p * q + r && x == d * (x / d) + x % d;
    Below(d, p, r, x % d);
    Spread(d, p, q, r);
    DivUnique(x, d * p, q, d * r + x % d);
  }

  lemma Below(d: nat, p: nat, r: nat, s: nat)
    requires r < p && s < d
    ensures d * p > 0 && d * r + s < d * p
  {
    assert d * (p - r) >= d by { Grows(d, p - r); }
    Spread(d, 1, p - r, r);
  }

  lemma Spread(d: int, p: int, q: int, r: int)
    ensures d * (p * q + r) == d * p * q + d * r
  {
  }

  lemma DivUnique(x: nat, d: nat, q: nat, r: nat)
    requires x == d * q + r && r < d
    ensures x / d == q && x % d == r
  {
    SameQuotient(d, q, r, x / d, x % d);
  }

  lemma SameQuotient(d: int, q: int, r: int, q': int, r': int)
    requires d * q + r == d * q' + r' && 0 <= r < d && 0 <= r' < d
    ensures q == q' && r == r'
  {
    assert d * (q - q') == r' - r;
    if q - q' >= 1 {
      Grows(d, q - q');
    } else if q' - q >= 1 {
      Grows(d, q' - q);
    }
  }

  lemma Grows(d: int, k: int)
    requires d > 0 && k >= 1
    ensures d * k >= d
  {
  }

  lemma {:induction false} KeepAll(x: nat)
    ensures AndNot(x, 0) == x
    decreases x
  {
    if x > 0 {
      KeepAll(x / 2);
    }
  }

  /** `to` is the least multiple of `a` at or above `from`. */
  ghost predicate LeastUp(from: int, to: int, a: nat)
    requires a > 0
  {
    from <= to && to % a == 0 && forall m: nat :: m % a == 0 && from <= m ==> to <= m
  }

  /** For a power of two the mask form computes the least multiple of `b` that is at least `a`. */
  lemma AlignIsLeastMultiple(a: nat, k: nat)
    ensures var b := Pow2(k);
      b > 0 && LeastUp(a, Align(a, b), b)
  {
    ClearLowBits(a + Pow2(k) - 1, k);
    LeastMultiple(a, Pow2(k));
  }

  lemma LeastMultiple(a: nat, b: nat)
    requires b > 0
    ensures var r := (a + b - 1) / b * b;
      LeastUp(a, r, b)
  {
    var q := (a + b - 1) / b;
    var r := q * b;
    assert a + b - 1 == b * q + (a + b - 1) % b;
    assert b * q == r;
    DivUnique(r, b, q, 0);
    forall m: nat | m % b == 0 && a <= m ensures r <= m {
      MultiplesApart(b, q, m / b, a);
    }
  }

  lemma MultiplesApart(b: nat, q: nat, k: nat, a: nat)
    requires b > 0 && a <= b * k && b * q < a + b
    ensures b * q <= b * k
  {
    if q > k {
      Distributes(b, q, k);
      Grows(b, q - k);
      assert false;
    } else if q < k {
      Distributes(b, k, q);
      Grows(b, k - q);
    }
  }

  lemma {:induction false} ClearsLow(x: nat, m: nat, k: nat, q: nat) returns (r: nat)
    requires m == Pow2(k) * q + (Pow2(k) - 1)
    ensures AndNot(x, m) == Pow2(k) * r
    decreases k
  {
    if k == 0 {
      return AndNot(x, m);
    }
    var p := Pow2(k - 1);
    HalfOfMask(m, p, q);
    r := ClearsLow(x / 2, m / 2, k - 1, q);
    Regroup(p, r);
  }

  lemma Regroup(p: int, r: int)
    ensures 2 * (p * r) == 2 * p * r
  {
  }

  lemma HalfOfMask(m: nat, p: nat, q: nat)
    requires m == 2 * p * q + (2 * p - 1)
    ensures m % 2 == 1 && m / 2 == p * q + (p - 1)
  {
    Regroup(p, q);
  }

  /** For any `b` the result is a multiple of every power of two that divides `b`. */
  lemma AlignsToPowers(a: nat, b: nat, k: nat)
    requires b > 0 && Pow2(k) > 0 && b % Pow2(k) == 0
    ensures Align(a, b) % Pow2(k) == 0
  {
    hide AndNot;
    var p, q := Pow2(k), b / Pow2(k);
    assert b == p * q && q > 0;
    Distributes(p, q, 1);
    var r := ClearsLow(a + b - 1, b - 1, k, q - 1);
    DivUnique(p * r, p, r, 0);
  }

  lemma Distributes(b: int, x: int, y: int)
    ensures b * x == b * y + b * (x - y)
  {
  }
}
