/** Division facts the solver does not find unaided; used by the chunking and layout proofs. */
module Arith {

  /** d * k >= d for k >= 1. */
  lemma {:induction false} MulAtLeast(d: nat, k: int)
    requires k >= 1
    ensures d * k >= d
  {
    if k > 1 {
      MulAtLeast(d, k - 1);
      assert d * k == d * (k - 1) + d;
    }
  }

  /** Multiplying by one more or one less adds or removes one factor. */
  lemma MulStep(a: int, b: int)
    ensures (a + 1) * b == a * b + b && (a - 1) * b == a * b - b
  {
  }

  /** Distributing a product over a sum in its first factor. */
  lemma MulAdd(a: int, k: int, b: int)
    ensures (a + k) * b == a * b + k * b
  {
  }

  /** Quotient and remainder are the unique q, r with a == q * d + r and 0 <= r < d. */
  lemma DivModUnique(a: int, d: nat, q: int, r: int)
    requires d > 0 && a == q * d + r && 0 <= r < d
    ensures a / d == q && a % d == r
  {
    var q0, r0 := a / d, a % d;
    assert a == q0 * d + r0;
    assert (q - q0) * d == r0 - r;
    if q > q0 {
      MulAtLeast(d, q - q0);
    } else if q < q0 {
      MulAtLeast(d, q0 - q);
    }
  }

  /** Squaring is monotonic on the naturals. */
  lemma SquareMono(a: nat, b: nat)
    requires a <= b
    ensures a * a <= b * b
  {
    MulLe(a, b, a);
    MulLe(a, b, b);
  }

  /** Multiplication by a natural number is monotonic. */
  lemma MulLe(a: int, b: int, c: nat)
    requires a <= b
    ensures a * c <= b * c
  {
    if a < b {
      MulAtLeast(c, b - a);
      assert (b - a) * c == b * c - a * c;
    }
  }

  /** An index below q * m, split by m, has a quotient below q. */
  lemma QuotientBelow(k: nat, q: nat, m: nat)
    requires k < q * m
    ensures m > 0 && k / m < q
  {
    if k / m >= q {
      MulLe(q, k / m, m);
    }
  }

  /** The same, with the divisor as the first factor. */
  lemma DivBelow(k: nat, m: nat, q: nat)
    requires k < m * q
    ensures m > 0 && k / m < q
  {
    assert m * q == q * m;
    QuotientBelow(k, q, m);
  }

  /** With h = n / w rounded up, h rows of w cover n, and h - 1 rows do not. */
  lemma CeilCover(n: nat, w: nat, h: int)
    requires w > 0 && h == n / w + (if n % w != 0 then 1 else 0)
    ensures w * h >= n > w * (h - 1)
  {
    var q, r := n / w, n % w;
    assert n == q * w + r && 0 <= r < w;
    assert w * h == h * w && w * (h - 1) == (h - 1) * w;
    MulStep(q, w);
  }

  /** For w the integer square root of n, n / w lies in [w, w + 2], and is w + 2 only when w divides n. */
  lemma SqrtQuotient(n: nat, w: nat)
    requires w > 0 && w * w <= n < (w + 1) * (w + 1)
    ensures w <= n / w <= w + 2
    ensures n / w == w + 2 ==> n % w == 0
  {
    var q, r := n / w, n % w;
    assert n == q * w + r && 0 <= r < w;
    MulAdd(w, 1, w + 1);
    MulAdd(w, 1, w);
    assert w * (w + 1) == (w + 1) * w;
    assert (w + 1) * (w + 1) == w * w + 2 * w + 1;
    if q < w {
      MulLe(q, w - 1, w);
      MulStep(w, w);
    }
    if q > w + 2 {
      MulLe(w + 3, q, w);
      MulAdd(w, 3, w);
    }
    if q == w + 2 {
      MulAdd(w, 2, w);
    }
  }

  /** Below n, the quotient by w lies under n / w rounded up. */
  lemma CeilRow(k: nat, n: nat, w: nat, h: int)
    requires k < n && w > 0 && h == n / w + (if n % w != 0 then 1 else 0)
    ensures 0 <= k / w < h
  {
    CeilCover(n, w, h);
    DivBelow(k, w, h);
  }
}
