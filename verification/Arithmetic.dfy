/** Facts about products, quotients and remainders that the solver does not find by itself. */
module Arithmetic {
  lemma {:induction false} ProductAtLeast(q: nat, p: nat, k: nat)
    requires p >= k
    ensures q * p >= q * k && p * q >= k * q
  {
    if q > 0 {
      ProductAtLeast(q - 1, p, k);
      assert q * p == (q - 1) * p + p && q * k == (q - 1) * k + k;
    }
    assert p * q == q * p && k * q == q * k;
  }

  lemma {:induction false} Scaled(a: nat, b: nat, step: nat)
    requires a < b && step > 0
    ensures a * step + step <= b * step
  {
    assert b * step == (b - 1) * step + step;
    if a < b - 1 {
      Scaled(a, b - 1, step);
    }
  }

  lemma DivMod(g: nat, m: nat, r: nat)
    requires r < m
    ensures (g * m + r) / m == g && (g * m + r) % m == r
  {
    var x := g * m + r;
    assert x == (x / m) * m + x % m;
    if x / m < g {
      Scaled(x / m, g, m);
    } else if x / m > g {
      Scaled(g, x / m, m);
    }
  }

  lemma ModShift(x: nat, q: nat, m: nat)
    requires m > 0
    ensures (x + q * m) % m == x % m
  {
    var d, r := x / m, x % m;
    assert x == d * m + r;
    assert (d + q) * m == d * m + q * m;
    DivMod(d + q, m, r);
  }

  lemma ModAdd(a: nat, b: nat, m: nat)
    requires m > 0
    ensures (a % m + b) % m == (a + b) % m
  {
    var q := a / m;
    assert a == q * m + a % m;
    ModShift(a % m + b, q, m);
  }

  lemma SameOffset(a: nat, b: nat, k: nat, m: nat)
    requires m > 0 && a % m == b % m
    ensures (a + k) % m == (b + k) % m
  {
    ModAdd(a, k, m);
    ModAdd(b, k, m);
  }

  /** A remainder by a multiple of the modulus changes nothing. */
  lemma ModMod(x: nat, m: nat, n: nat)
    requires m > 0 && n > 0 && m % n == 0
    ensures (x % m) % n == x % n
  {
    var q, k, r := x / m, m / n, x % m;
    DivisionOf(x, m);
    DivisionOf(m, n);
    ManyTurns(r, q, k, n);
  }

  lemma DivisionOf(x: nat, m: nat)
    requires m > 0
    ensures x == x / m * m + x % m
  {
  }

  lemma ManyTurns(r: nat, q: nat, k: nat, n: nat)
    requires n > 0
    ensures (q * (k * n) + r) % n == r % n
  {
    assert q * (k * n) == (q * k) * n;
    ModShift(r, q * k, n);
  }

  /** Positions that are less than a turn apart are different. */
  lemma Apart(a: nat, b: nat, m: nat)
    requires a < b < a + m
    ensures a % m != b % m
  {
    var q, r := a / m, a % m;
    assert a == q * m + r;
    var y := r + (b - a);
    ModShift(y, q, m);
    Within(y, m);
  }

  lemma Within(y: nat, m: nat)
    requires 0 < m && y < 2 * m
    ensures y % m == if y < m then y else y - m
  {
    if y < m {
      DivMod(0, m, y);
    } else {
      DivMod(1, m, y - m);
    }
  }
}
