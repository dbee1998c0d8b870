/** Powers of two and division, as the address arithmetic needs them. */
module Arith {

  function Pow2(n: nat): (p: nat)
    ensures p > 0
  {
    if n == 0 then 1 else 2 * Pow2(n - 1)
  }

  lemma {:induction false} PowAdd(n: nat, m: nat)
    ensures Pow2(n + m) == Pow2(n) * Pow2(m)
  {
    if n > 0 { PowAdd(n - 1, m); }
  }

  lemma {:induction false} MulGe(x: nat, y: nat, d: nat)
    requires x >= y
    ensures x * d >= y * d
  {
  }

  lemma {:induction false} MulSmall(x: int, d: int)
    requires -d < x * d < d
    ensures x == 0
  {
  }

  lemma {:induction false} MulEqual(x: int, y: int, d: nat)
    requires d > 0
    ensures x * d == y * d <==> x == y
  {
    if x * d == y * d { MulSmall(x - y, d); }
  }

  lemma {:induction false} QuotientUnique(d: nat, q: int, r: nat, q': int, r': nat)
    requires q * d + r == q' * d + r' && r < d && r' < d
    ensures q == q' && r == r'
  {
    MulSmall(q - q', d);
  }

  lemma {:induction false} DivUnique(a: nat, d: nat, q: nat, r: nat)
    requires d > 0 && r < d && a == q * d + r
    ensures a / d == q && a % d == r
  {
    QuotientUnique(d, q, r, a / d, a % d);
  }

  lemma {:induction false} RestBound(b: nat, c: nat, r2: nat, r: nat)
    requires r2 < c && r < b
    ensures r2 * b + r < b * c
  {
    MulGe(c - 1, r2, b);
  }

  lemma {:induction false} DivDiv(a: nat, b: nat, c: nat)
    requires b > 0 && c > 0
    ensures b * c > 0 && a / b >= 0 && a / b / c == a / (b * c)
  {
    var q, r := a / b, a % b;
    var q2, r2 := q / c, q % c;
    RestBound(b, c, r2, r);
    DivUnique(a, b * c, q2, r2 * b + r);
  }

  lemma {:induction false} PowMonotone(k: nat, w: nat)
    requires k <= w
    ensures Pow2(k) <= Pow2(w)
  {
    if k < w { PowMonotone(k, w - 1); }
  }

  /** Dividing by a larger power of two forgets more. */
  lemma {:induction false} Coarser(a: nat, b: nat, k: nat, m: nat)
    requires k <= m && a / Pow2(k) == b / Pow2(k)
    ensures a / Pow2(m) == b / Pow2(m)
  {
    PowAdd(k, m - k);
    DivDiv(a, Pow2(k), Pow2(m - k));
    DivDiv(b, Pow2(k), Pow2(m - k));
  }

  /** `a & b` on the binary digits of two natural numbers. */
  function And(a: nat, b: nat): nat {
    if a == 0 || b == 0 then 0 else (if a % 2 == 1 && b % 2 == 1 then 1 else 0) + 2 * And(a / 2, b / 2)
  }

  lemma {:induction false} AndOnes(a: nat, w: nat)
    requires a < Pow2(w)
    ensures And(a, Pow2(w) - 1) == a
  {
    if w > 0 && a > 0 { AndOnes(a / 2, w - 1); }
  }

  lemma {:induction false} Scale(h: nat, p: nat)
    ensures 2 * (h * p) == h * (2 * p)
  {
  }

  /** Masking off `k` low bits is dividing and multiplying back. */
  lemma {:induction false} AndMask(a: nat, w: nat, k: nat)
    requires a < Pow2(w) && k <= w
    ensures Pow2(k) <= Pow2(w) && a / Pow2(k) >= 0 && And(a, Pow2(w) - Pow2(k)) == a / Pow2(k) * Pow2(k)
  {
    PowMonotone(k, w);
    if k == 0 {
      AndOnes(a, w);
      DivUnique(a, 1, a, 0);
    } else {
      var p := Pow2(k - 1);
      PowMonotone(k - 1, w - 1);
      AndMask(a / 2, w - 1, k - 1);
      DivDiv(a, 2, p);
      Scale(a / 2 / p, p);
    }
  }

  lemma {:induction false} MaskedEqual(a: nat, b: nat, w: nat, k: nat)
    requires a < Pow2(w) && b < Pow2(w) && k <= w
    ensures Pow2(k) <= Pow2(w)
    ensures And(a, Pow2(w) - Pow2(k)) == And(b, Pow2(w) - Pow2(k)) <==> a / Pow2(k) == b / Pow2(k)
  {
    AndMask(a, w, k);
    AndMask(b, w, k);
    MulEqual(a / Pow2(k), b / Pow2(k), Pow2(k));
  }

  /** An all-ones word shifted left by `k`, cut back to its width. */
  lemma {:induction false} ShiftedOnes(k: nat, w: nat)
    requires k <= w
    ensures Pow2(k) <= Pow2(w) && (Pow2(w) - 1) * Pow2(k) % Pow2(w) == if k == w then 0 else Pow2(w) - Pow2(k)
  {
    PowMonotone(k, w);
    if k < w {
      PowMonotone(k + 1, w);
      ShiftedOnesAt(Pow2(w), Pow2(k));
    } else {
      ShiftedAll(Pow2(w));
    }
  }

  lemma {:induction false} ShiftedOnesAt(p: nat, q: nat)
    requires 0 < q < p
    ensures (p - 1) * q % p == p - q
  {
    assert (p - 1) * q == (q - 1) * p + (p - q);
    DivUnique((p - 1) * q, p, q - 1, p - q);
  }

  lemma {:induction false} ShiftedAll(p: nat)
    requires p > 0
    ensures (p - 1) * p % p == 0
  {
    DivUnique((p - 1) * p, p, p - 1, 0);
  }

  lemma {:induction false} BelowPow(a: nat, w: nat)
    requires a < Pow2(w)
    ensures a / Pow2(w) == 0
  {
    DivUnique(a, Pow2(w), 0, a);
  }

  /** Two numbers of `width` bits share their first `prefix` bits. */
  predicate SamePrefix(a: nat, b: nat, width: nat, prefix: nat)
    requires prefix <= width
  {
    a / Pow2(width - prefix) == b / Pow2(width - prefix)
  }

  lemma {:induction false} NoPrefix(a: nat, b: nat, width: nat)
    requires a < Pow2(width) && b < Pow2(width)
    ensures SamePrefix(a, b, width, 0)
  {
    BelowPow(a, width);
    BelowPow(b, width);
  }

  /** Appending a digit to a number of `w` bits. */
  lemma {:induction false} DigitBound(x: nat, w: nat, d: nat, k: nat)
    requires x < Pow2(w) && d < Pow2(k)
    ensures x * Pow2(k) + d < Pow2(w + k)
  {
    PowAdd(w, k);
    RestBound(Pow2(k), Pow2(w), x, d);
  }
}
