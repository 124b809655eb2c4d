/** Facts about multiplication and division by a positive width, used to
    place cell `i` of a row-major grid at row `i / cols`, column `i % cols`,
    and to count the pieces `ChunkFrameData` cuts; and the size of a subset. */
module Arith {

  lemma {:induction false} MulMonotone(x: int, y: int, cols: nat)
    requires x <= y
    ensures x * cols <= y * cols
  {
    assert y * cols - x * cols == (y - x) * cols;
  }

  lemma {:induction false} MulSucc(k: int, cols: int)
    ensures (k + 1) * cols == k * cols + cols
  {
  }

  lemma {:induction false} DivUnique(a: nat, cols: nat, k: nat)
    requires cols > 0 && k * cols <= a < k * cols + cols
    ensures a / cols == k && a % cols == a - k * cols
  {
    var q := a / cols;
    assert a == q * cols + a % cols;
    MulSucc(k, cols);
    MulSucc(q, cols);
    if q > k {
      MulMonotone(k + 1, q, cols);
    } else if q < k {
      MulMonotone(q + 1, k, cols);
    }
  }

  lemma {:induction false} DivCeil(n: nat, cols: nat)
    requires cols > 0
    ensures n % cols == 0 ==> (n + cols - 1) / cols == n / cols && (n + 1 + cols - 1) / cols == n / cols + 1
    ensures n % cols != 0 ==> (n + cols - 1) / cols == n / cols + 1 && (n + 1 + cols - 1) / cols == n / cols + 1
  {
    var q := n / cols;
    assert n == q * cols + n % cols;
    MulSucc(q, cols);
    MulSucc(q + 1, cols);
    if n % cols == 0 {
      DivUnique(n + cols - 1, cols, q);
    } else {
      DivUnique(n + cols - 1, cols, q + 1);
    }
    DivUnique(n + cols, cols, q + 1);
  }

  lemma {:induction false} RowMajorBound(r: nat, c: nat, q: nat, cols: nat)
    requires c < cols && r < q
    ensures r * cols + c < q * cols
  {
    MulMonotone(r + 1, q, cols);
    MulSucc(r, cols);
  }

  lemma {:induction false} RowOfIndex(i: nat, cols: nat, n: nat)
    requires cols > 0 && i < n * cols
    ensures i / cols < n && i == (i / cols) * cols + i % cols
  {
    var q := i / cols;
    assert i == q * cols + i % cols;
    if q >= n {
      MulMonotone(n, q, cols);
    }
  }

  /** `(n + size - 1) / size` pieces of `size` cover `n` items, and every
      piece starts before the end. */
  lemma {:induction false} CeilDiv(n: nat, size: nat, i: nat)
    requires size > 0 && i < (n + size - 1) / size
    ensures i * size < n
  {
    var q := (n + size - 1) / size;
    assert n + size - 1 == q * size + (n + size - 1) % size;
    MulMonotone(i + 1, q, size);
    MulSucc(i, size);
  }

  /** The count itself covers `n`, also when it is 0. */
  lemma {:induction false} CeilCovers(n: nat, size: nat)
    requires size > 0
    ensures n <= ((n + size - 1) / size) * size
  {
    var q := (n + size - 1) / size;
    assert n + size - 1 == q * size + (n + size - 1) % size;
  }

  /** A subset has no more elements than its superset. */
  lemma SubsetSize<T>(a: set<T>, b: set<T>)
    requires a <= b
    ensures |a| <= |b|
  {
    assert b == a + (b - a);
  }
}
