/** Facts about natural-number multiplication and Euclidean division that the
    column arithmetic (`i % k`, `j + n * k`) and the statistics rely on. */
module Arithmetic {

  lemma MulSucc(n: nat, k: nat)
    ensures (n + 1) * k == n * k + k
  {
  }

  lemma {:induction false} MulAtLeast(d: nat, k: nat)
    requires d >= 1
    ensures d * k >= k
    decreases d
  {
    if d > 1 {
      MulAtLeast(d - 1, k);
      MulSucc(d - 1, k);
    }
  }

  lemma MulCancel(a: nat, b: nat, k: nat)
    requires a * k > b * k
    ensures a > b
  {
    if a <= b {
      MulMonotone(a, b, k);
    }
  }

  lemma {:induction false} MulMonotone(a: nat, b: nat, k: nat)
    requires a <= b
    ensures a * k <= b * k
    decreases b - a
  {
    if a < b {
      MulMonotone(a, b - 1, k);
      MulSucc(b - 1, k);
    }
  }

  /** Euclidean division is unique: `q` and `r` are the quotient and remainder. */
  lemma DivModUnique(a: nat, k: nat, q: nat, r: nat)
    requires k >= 1 && r < k && a == q * k + r
    ensures a / k == q && a % k == r
  {
    var q', r' := a / k, a % k;
    assert a == q' * k + r';
    if q' > q {
      MulAtLeast(q' - q, k);
      MulSplit(q, q' - q, k);
    } else if q' < q {
      MulAtLeast(q - q', k);
      MulSplit(q', q - q', k);
    }
  }

  lemma MulSplit(a: nat, b: nat, k: nat)
    ensures (a + b) * k == a * k + b * k
  {
  }

  /** Dropping one stride keeps the residue. */
  lemma ModMinusStride(a: nat, k: nat)
    requires k >= 1 && a >= k
    ensures (a - k) % k == a % k
  {
    assert a == (a / k) * k + a % k;
    MulSucc(a / k - 1, k);
    DivModUnique(a - k, k, a / k - 1, a % k);
  }

  lemma ColumnOfLastIndex(i: nat, k: nat, j: nat)
    requires k >= 1 && j < k
    ensures (j <= i && (i - j) % k == 0) <==> j == i % k
  {
    if j <= i && (i - j) % k == 0 {
      assert i - j == ((i - j) / k) * k + 0;
      DivModUnique(i, k, (i - j) / k, j);
    }
    if j == i % k {
      assert i == (i / k) * k + i % k;
      DivModUnique(i - j, k, i / k, 0);
    }
  }

  /** `n * (n - 1)`, the number of ordered pairs of distinct positions among `n`,
      is positive from two positions on and grows with `n`. */
  lemma PairsPositive(n: nat)
    requires n >= 2
    ensures n * (n - 1) >= 2
  {
    MulAtLeast(n, n - 1);
  }

  lemma PairsMonotone(a: nat, n: nat)
    requires a <= n
    ensures a * (a - 1) <= n * (n - 1)
  {
    if a >= 1 {
      MulMonotone(a, n, a - 1);
      assert n * (a - 1) <= n * (n - 1) by {
        assert n * (a - 1) == (a - 1) * n;
        MulMonotone(a - 1, n - 1, n);
      }
    }
  }

  lemma RatioWithinUnit(b: real, d: real)
    requires 0.0 <= b <= d && d > 0.0
    ensures 0.0 <= b / d <= 1.0
  {
    assert b / d * d == b;
  }

  /** Pairs among a + f positions include the pairs within each part. */
  lemma PairsSuperadditive(a: nat, f: nat)
    ensures 0 <= f * (f - 1)
    ensures a * (a - 1) + f * (f - 1) <= (a + f) * (a + f - 1)
  {
    if f > 0 {
      MulAtLeast(f, f - 1);
    }
    var p: int := a + f - 1;
    assert (a + f) * p == a * p + f * p;
    assert a * p == a * (a - 1) + a * f;
    assert f * p == f * (f - 1) + f * a;
    if a > 0 && f > 0 {
      MulAtLeast(a, f);
    }
  }

  lemma SelfRatio(d: real)
    requires d > 0.0
    ensures d / d == 1.0
  {
  }

  lemma ScaleMonotone(a: real, b: real, c: real)
    requires a >= 0.0 && b <= c
    ensures a * b <= a * c
  {
    assert a * c - a * b == a * (c - b);
  }

  lemma SquareMonotone(x: real, d: real)
    requires 0.0 <= x <= d
    ensures x * x <= d * d
  {
    ScaleMonotone(x, x, d);
    ScaleMonotone(d, x, d);
  }

  lemma QuotientAtLeast(a: real, e: real, b: real)
    requires e > 0.0 && a >= b * e
    ensures a / e >= b
  {
    assert a / e - b == (a - b * e) / e;
  }

  lemma ScaledSquare(n: real, c: real)
    ensures (n * c) * (n * c) == (c * c) * (n * n)
  {
  }

  /** One more copy of a letter adds 2f ordered pairs to its f(f - 1). */
  lemma PairsStep(f: int)
    ensures (f + 1) * (f + 1 - 1) == f * (f - 1) + 2 * f
  {
  }
}
