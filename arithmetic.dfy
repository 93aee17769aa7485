/** Facts about integer division and powers of two that the solver does not
    find unaided. */
module Arithmetic {

  lemma MulAtLeast(a: int, p: int)
    requires a >= 1 && p >= 1
    ensures a * p >= p
  {
    if a > 1 {
      MulAtLeast(a - 1, p);
      assert a * p == (a - 1) * p + p;
    }
  }

  /** Quotient and remainder are the only ones with the remainder in range. */
  lemma DivModUnique(x: int, p: int, q: int, r: int)
    requires p >= 1 && 0 <= r < p && x == q * p + r
    ensures x / p == q && x % p == r
  {
    var q' := x / p;
    var r' := x % p;
    assert x == q' * p + r';
    assert (q' - q) * p == q' * p - q * p;
    assert (q' - q) * p == r - r';
    if q' > q {
      MulAtLeast(q' - q, p);
    } else if q' < q {
      MulAtLeast(q - q', p);
    }
  }

  /** Counting modulo `p` one step on. */
  lemma ModStep(t: nat, p: int)
    requires p >= 1
    ensures (t + 1) % p == if t % p == p - 1 then 0 else t % p + 1
  {
    var q := t / p;
    var m := t % p;
    assert t == q * p + m;
    if m == p - 1 {
      assert (q + 1) * p == q * p + p;
      DivModUnique(t + 1, p, q + 1, 0);
    } else {
      DivModUnique(t + 1, p, q, m + 1);
    }
  }

  /** Multiplying by a positive number keeps the order. */
  lemma MulLe(r: int, s: int, a: int)
    requires 0 <= r <= s && a >= 1
    ensures r * a <= s * a
  {
    if r < s {
      MulAtLeast(s - r, a);
      assert (s - r) * a == s * a - r * a;
    }
  }

  /** Dividing twice is dividing by the product. */
  lemma DivDiv(x: nat, a: int, b: int)
    requires a >= 1 && b >= 1
    ensures x / a / b == x / (a * b)
  {
    var q1 := x / a;
    var r1 := x % a;
    var q2 := q1 / b;
    var r2 := q1 % b;
    assert x == q1 * a + r1;
    assert q1 == q2 * b + r2;
    assert q1 * a == q2 * b * a + r2 * a;
    assert q2 * b * a == q2 * (a * b);
    MulLe(r2, b - 1, a);
    assert (b - 1) * a == a * b - a;
    DivModUnique(x, a * b, q2, r2 * a + r1);
  }

  /** The remainder modulo `2 * p` from the remainder of the half modulo `p`. */
  lemma HalfMod(x: nat, p: int)
    requires p >= 1
    ensures x % (2 * p) == 2 * ((x / 2) % p) + x % 2
  {
    var h := x / 2;
    var q := h / p;
    var r := h % p;
    assert h == q * p + r;
    assert x == 2 * h + x % 2;
    assert 2 * (q * p) == q * (2 * p);
    DivModUnique(x, 2 * p, q, 2 * r + x % 2);
  }

  function Pow2(k: nat): (p: nat)
    ensures p >= 1
  {
    if k == 0 then 1 else 2 * Pow2(k - 1)
  }
}
