/** Facts about products, quotients and remainders with a variable divisor, and one about the size of
    sets. */
module Arith {

  lemma MulMonotonic(n: nat, a: int, b: int)
    requires a <= b
    ensures n * a <= n * b
    ensures n * (a + 1) == n * a + n
  {
  }

  lemma DivBounds(a: nat, n: nat)
    requires n > 0
    ensures a / n >= 0 && 0 <= a % n < n
    ensures n * (a / n) <= a < n * (a / n) + n
    ensures a == n * (a / n) + a % n
  {
  }

  /** Quotient and remainder are determined by their defining equation. */
  lemma DivUnique(x: nat, n: nat, q: nat, r: nat)
    requires n > 0 && x == n * q + r && r < n
    ensures x / n == q && x % n == r
  {
    var q', r' := x / n, x % n;
    DivBounds(x, n);
    if q' < q { MulMonotonic(n, q' + 1, q); MulMonotonic(n, q', q'); }
    if q < q' { MulMonotonic(n, q + 1, q'); MulMonotonic(n, q, q); }
  }

  lemma ModOfSum(n: nat, a: nat, j: nat)
    requires a < n
    ensures (a + n * j) % n == a && (a + n * j) / n == j
  {
    DivUnique(a + n * j, n, j, a);
  }

  /** The successor modulo `c`. */
  lemma ModStep(k: nat, c: nat)
    requires c > 0
    ensures (k + 1) % c == if k % c + 1 == c then 0 else k % c + 1
  {
    var q, r := k / c, k % c;
    DivBounds(k, c);
    if r + 1 == c {
      StepOver(k, c, q);
    } else {
      DivUnique(k + 1, c, q, r + 1);
    }
  }

  lemma StepOver(k: nat, c: nat, q: nat)
    requires c > 0 && k + 1 == c * q + c
    ensures (k + 1) % c == 0
  {
    MulMonotonic(c, q, q);
    DivUnique(k + 1, c, q + 1, 0);
  }

  /** Remainders of two numbers less than `m` apart. */
  lemma ModDifference(x: nat, y: nat, m: nat)
    requires m > 0 && y <= x < y + m
    ensures x - y == if x % m >= y % m then x % m - y % m else m + x % m - y % m
  {
    DivBounds(x, m);
    DivBounds(y, m);
    QuotientsClose(m, x / m, x % m, y / m, y % m);
  }

  lemma QuotientsClose(m: nat, q: nat, a: nat, p: nat, b: nat)
    requires a < m && b < m && m * p + b <= m * q + a < m * p + b + m
    ensures (m * q + a) - (m * p + b) == if a >= b then a - b else m + a - b
  {
    if q < p {
      MulMonotonic(m, q + 1, p);
      MulMonotonic(m, q, q);
    } else if q > p {
      MulMonotonic(m, p, p);
      if q > p + 1 { MulMonotonic(m, p + 1, p + 1); MulMonotonic(m, p + 2, q); }
    }
  }

  /** Adding before or after taking the remainder. */
  lemma ModAdd(x: nat, y: nat, m: nat)
    requires m > 0
    ensures (x % m + y) % m == (x + y) % m
  {
    DivBounds(x, m);
    DivBounds(x % m + y, m);
    var q, r := (x % m + y) / m, (x % m + y) % m;
    Distribute(m, x / m, q);
    DivUnique(x + y, m, x / m + q, r);
  }

  lemma Distribute(m: nat, a: nat, b: nat)
    ensures m * (a + b) == m * a + m * b
  {
  }

  /** The remainder by `m` of a remainder by `2 * m`. */
  lemma ModOfDouble(x: nat, m: nat)
    requires m > 0
    ensures (x % (2 * m)) % m == x % m
  {
    DivBounds(x, 2 * m);
    DivBounds(x % (2 * m), m);
    NestedDivision(x, m, x / (2 * m), (x % (2 * m)) / m, (x % (2 * m)) % m);
  }

  lemma NestedDivision(x: nat, m: nat, q: nat, p: nat, t: nat)
    requires m > 0 && t < m && x == (2 * m) * q + (m * p + t)
    ensures x % m == t
  {
    Reassociate(m, q);
    Distribute(m, 2 * q, p);
    DivUnique(x, m, 2 * q + p, t);
  }

  lemma RemainderUnique(x: int, n: nat, q: int, r: nat)
    requires r < n && x == n * q + r
    ensures x % n == r
  {
    var p := x / n;
    if p < q { MulMonotonic(n, p + 1, q); MulMonotonic(n, p, p); }
    if q < p { MulMonotonic(n, q + 1, p); MulMonotonic(n, q, q); }
  }

  /** The remainder by `m` of a remainder by a multiple of `m`. */
  lemma ModOfProduct(x: int, m: nat, k: nat)
    requires m > 0 && k > 0
    ensures m * k > 0 && 0 <= x % (m * k) && (x % (m * k)) % m == x % m
  {
    MulMonotonic(m, 1, k);
    var q, r := x / (m * k), x % (m * k);
    DivBounds(r, m);
    ThreeFactors(m, k, q);
    DistributeSum(m, k * q, r / m);
    RemainderUnique(x, m, k * q + r / m, r % m);
  }

  lemma ThreeFactors(m: nat, k: nat, q: int)
    ensures (m * k) * q == m * (k * q)
  {
  }

  lemma DistributeSum(m: nat, a: int, b: int)
    ensures m * (a + b) == m * a + m * b
  {
  }

  lemma Reassociate(m: nat, q: nat)
    ensures (2 * m) * q == m * (2 * q)
  {
  }

  lemma ModPlusModulus(x: nat, m: nat)
    requires m > 0
    ensures (x + m) % m == x % m && (x + m) / m == x / m + 1
  {
    DivBounds(x, m);
    MulMonotonic(m, x / m, x / m);
    DivUnique(x + m, m, x / m + 1, x % m);
  }

  /** Splitting a position into block and offset commutes with moving forward. */
  lemma DivModAdvance(x: nat, n: nat, m: nat)
    requires m > 0
    ensures (x + n) / m == x / m + (x % m + n) / m
    ensures (x + n) % m == (x % m + n) % m
  {
    DivBounds(x, m);
    DivBounds(x % m + n, m);
    var q, r := (x % m + n) / m, (x % m + n) % m;
    Distribute(m, x / m, q);
    DivUnique(x + n, m, x / m + q, r);
  }

  lemma DivMonotonic(x: nat, y: nat, m: nat)
    requires m > 0 && x <= y
    ensures x / m <= y / m
  {
    DivBounds(x, m);
    DivBounds(y, m);
    if y / m < x / m { MulMonotonic(m, y / m + 1, x / m); MulMonotonic(m, y / m, y / m); }
  }

  /** Two numbers in block-and-offset form, the larger at most `c` blocks ahead. */
  lemma BlocksApart(s: nat, c: nat, a: nat, x: nat, b: nat, y: nat)
    requires x < s && y < s && s * a + x <= s * b + y <= s * a + x + s * c
    ensures a <= b <= a + c
    ensures b == a + c ==> y <= x
    ensures b == a ==> x <= y
  {
    Distribute(s, a, c);
    if b < a { MulMonotonic(s, b + 1, a); MulMonotonic(s, b, b); }
    if b > a + c { MulMonotonic(s, a + c + 1, b); MulMonotonic(s, a + c, a + c); }
  }

  lemma {:induction false} SubsetCount(a: set<nat>, b: set<nat>)
    requires a <= b
    ensures |a| <= |b|
  {
    if a != {} {
      var x :| x in a;
      SubsetCount(a - {x}, b - {x});
    }
  }
}
