/** Facts about multiplication, division and remainder on integers that the
    grid and frame index calculations rest on. Division here is Dafny's,
    which agrees with Python's `//` and `%` for a positive divisor. */
module Arith {

  /** A multiple of `w` by a factor of at least one is at least `w`. */
  lemma MulAtLeast(k: int, w: nat)
    requires k >= 1
    ensures k * w >= w
  {
  }

  /** Multiplication distributes over subtraction. */
  lemma MulSub(a: int, b: int, k: int)
    ensures (a - b) * k == a * k - b * k
  {
  }

  /** `(k + 1) * w` is `w` more than `k * w`. */
  lemma MulSucc(k: int, w: int)
    ensures (k + 1) * w == k * w + w
  {
  }

  /** Multiplying by a natural number keeps order. */
  lemma MulMono(a: int, b: int, w: nat)
    requires a <= b
    ensures a * w <= b * w
  {
  }

  /** Quotient and remainder are the only pair with `x == q * k + m` and
      `0 <= m < k`. */
  lemma DivUnique(x: int, k: int, q: int, m: int)
    requires k >= 1 && x == q * k + m && 0 <= m < k
    ensures x / k == q && x % k == m
  {
    var q', m' := x / k, x % k;
    assert x == q' * k + m';
    MulSub(q', q, k);
    if q' > q {
      MulAtLeast(q' - q, k);
    } else if q' < q {
      MulSub(q, q', k);
      MulAtLeast(q - q', k);
    }
  }

  /** Past the first `k`, index `j` lies one block further on. */
  lemma DivShift(j: int, k: int)
    requires k >= 1 && j >= k
    ensures (j - k) / k == j / k - 1
  {
    var q, m := (j - k) / k, (j - k) % k;
    assert j - k == q * k + m;
    MulSucc(q, k);
    DivUnique(j, k, q + 1, m);
  }

  /** `(x * k) / k` is `x`, with nothing left over. */
  lemma MulDiv(x: int, k: int)
    requires k >= 1
    ensures (x * k) / k == x && (x * k) % k == 0
  {
    DivUnique(x * k, k, x, 0);
  }

  /** An index below `n * k` falls in one of the first `n` blocks of `k`. */
  lemma DivBelow(j: int, n: int, k: int)
    requires k >= 1 && 0 <= j < n * k
    ensures 0 <= j / k < n
  {
    var q, m := j / k, j % k;
    assert j == q * k + m;
    if q >= n {
      MulMono(n, q, k);
    }
    if q < 0 {
      MulAtLeast(-q, k);
      MulSub(0, q, k);
    }
  }

  /** An index below `n / k` scales to an index below `n`. */
  lemma DivMulBound(i: int, n: nat, k: int)
    requires k >= 1 && 0 <= i < n / k
    ensures 0 <= i * k < n
  {
    MulMono(i + 1, n / k, k);
    MulSucc(i, k);
    assert n == (n / k) * k + n % k;
  }

  /** The quotient of a natural number brackets it between two multiples. */
  lemma DivBounds(a: int, b: int)
    requires a >= 0 && b >= 1
    ensures 0 <= a / b && (a / b) * b <= a < (a / b) * b + b
  {
    var q, m := a / b, a % b;
    assert a == q * b + m;
    if q < 0 {
      MulAtLeast(-q, b);
      MulSub(0, q, b);
    }
  }
}
