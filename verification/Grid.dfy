/** Two-dimensional data in one-dimensional memory. */
module Grid {
  import opened CArith

  /** Position of (major, minor) when each major index takes n places. */
  function Idx(major: int, minor: int, n: int): int {
    major * n + minor
  }

  lemma IdxBound(i: int, j: int, m: nat, n: nat)
    requires 0 <= i < m && 0 <= j < n
    ensures 0 <= Idx(i, j, n) < m * n
  {
    MulStep(i, m, n);
    MulMono(0, i, n);
  }

  lemma IdxInjective(i: int, j: int, i': int, j': int, n: nat)
    requires 0 <= j < n && 0 <= j' < n && Idx(i, j, n) == Idx(i', j', n)
    ensures i == i' && j == j'
  {
    if i < i' {
      MulStep(i, i', n);
    } else if i' < i {
      MulStep(i', i, n);
    }
  }

  lemma IdxNext(i: int, j: int, n: nat)
    ensures Idx(i + 1, j, n) == Idx(i, j, n) + n
    ensures Idx(i, j + 1, n) == Idx(i, j, n) + 1
  {
  }

  /** Every position of an m by n block is some (major, minor). */
  lemma IdxOnto(k: nat, m: nat, n: nat) returns (i: nat, j: nat)
    requires k < m * n && n > 0
    ensures i < m && j < n && k == Idx(i, j, n)
  {
    i, j := k / n, k % n;
    assert k == i * n + j;
    if i >= m {
      MulMono(m, i, n);
    }
  }
}
