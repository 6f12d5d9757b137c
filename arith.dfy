/** Small facts about Euclidean division and remainder on naturals. */
module Arith {

  /** Division is determined by a quotient and a remainder in range. */
  lemma DivModUnique(x: int, m: int, q: int, r: int)
    requires m > 0 && 0 <= r < m && x == q * m + r
    ensures x / m == q && x % m == r
  {
    var q', r' := x / m, x % m;
    assert x == q' * m + r';
    var d := q - q';
    assert d * m == r' - r by {
      assert q * m - q' * m == (q - q') * m;
    }
    if d >= 1 {
      MulAtLeast(d, m);
    } else if d <= -1 {
      MulAtLeast(-d, m);
    }
  }

  /** Halving and then dividing by `k` is dividing by 2k. */
  lemma DivTwice(x: int, k: int)
    requires x >= 0 && k > 0
    ensures x / (2 * k) == (x / 2) / k
  {
    var h := x / 2;
    var q, r := h / k, h % k;
    assert h == q * k + r && 0 <= r < k;
    assert 2 * (q * k) == q * (2 * k);
    DivModUnique(x, 2 * k, q, 2 * r + x % 2);
  }

  lemma MulAtLeast(d: int, m: int)
    requires d >= 1 && m > 0
    ensures d * m >= m
  {
    assert d * m == (d - 1) * m + m;
    assert (d - 1) * m >= 0;
  }

  /** Two additions modulo m can be reduced in either order. */
  lemma ModAddSwap(a: int, b: int, c: int, m: int)
    requires m > 0
    ensures ((a + b) % m + c) % m == ((a + c) % m + b) % m
  {
    var ab, ac := a + b, a + c;
    ModAdd(ab, c, m);
    ModAdd(ac, b, m);
    assert ab + c == ac + b;
  }

  /** The distance from k back round to 0 modulo n. */
  lemma ModComplement(k: int, n: int)
    requires 0 <= k < n
    ensures (k + (n - k) % n) % n == 0
  {
    ModAddMultiple(0, n, 1);
    ModSmall(0, n);
    if k == 0 {
      assert (n - k) % n == 0;
    } else {
      ModSmall(n - k, n);
    }
  }

  /** Adding a multiple of the modulus does not change the remainder. */
  lemma ModAddMultiple(x: int, m: int, k: int)
    requires m > 0
    ensures (x + k * m) % m == x % m
    ensures (x + k * m) / m == x / m + k
  {
    DivModUnique(x + k * m, m, x / m + k, x % m);
  }

  /** The remainder by `n` is congruent to the value modulo any divisor `e` of `n`. */
  lemma ModModDivisor(x: int, n: int, e: int)
    requires e > 0 && n > 0 && n % e == 0
    ensures (x % n) % e == x % e
  {
    var t := n / e;
    assert n == t * e;
    assert x == (x % n) + (x / n) * n;
    assert (x / n) * n == ((x / n) * t) * e;
    ModAddMultiple(x % n, e, (x / n) * t);
  }

  /** Remainders add up modulo `m`. */
  lemma ModAdd(x: int, y: int, m: int)
    requires m > 0
    ensures (x % m + y) % m == (x + y) % m
  {
    assert x == x % m + (x / m) * m;
    ModAddMultiple(x % m + y, m, x / m);
  }

  /** Congruence modulo `m` is preserved by adding the same amount. */
  lemma ModShift(x: int, y: int, c: int, m: int)
    requires m > 0 && x % m == y % m
    ensures (x + c) % m == (y + c) % m
  {
    ModAdd(x, c, m);
    ModAdd(y, c, m);
  }

  /** A value below the modulus is its own remainder. */
  lemma ModSmall(x: int, m: int)
    requires 0 <= x < m
    ensures x % m == x && x / m == 0
  {
    DivModUnique(x, m, 0, x);
  }

  /** Multiplying by a natural keeps the order. */
  lemma MulMono(i: int, a: int, b: int)
    requires i >= 0 && a <= b
    ensures i * a <= i * b
  {
    assert i * b - i * a == (b - a) * i;
    if b - a >= 1 && i > 0 {
      MulAtLeast(b - a, i);
    }
  }

  /** Position j of block k lies inside a sequence of q blocks of length i. */
  lemma BlockBound(i: int, q: int, j: int, k: int)
    requires 0 <= j < i && 0 <= k < q
    ensures j + i * k < i * q
  {
    MulMono(i, k + 1, q);
    assert i * (k + 1) == i * k + i;
  }

  /** Position m of a sequence of q blocks of length i is position j of block k. */
  lemma BlockOf(m: int, i: int, n: int) returns (j: int, k: int)
    requires 0 <= m < n && i > 0 && n % i == 0
    ensures j == m % i && k == m / i && m == j + i * k
    ensures 0 <= j < i && 0 <= k < n / i
  {
    j, k := m % i, m / i;
    assert m == j + i * k;
    var q := n / i;
    assert n == i * q;
    if k >= q {
      MulMono(i, q, k);
    }
  }
}
