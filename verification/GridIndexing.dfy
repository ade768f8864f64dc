/** The cells of a grid of m rows and n columns, numbered row by row. */
module GridIndexing {

  lemma RowBelow(j: nat, m: nat, n: nat)
    requires j < m
    ensures j * n + n <= m * n
  {
    assert (j + 1) * n <= m * n;
  }

  lemma GridIndex(i: nat, j: nat, m: nat, n: nat)
    requires i < n && j < m
    ensures i + j * n < m * n
    ensures (i + j * n) / n == j && (i + j * n) % n == i
  {
    RowBelow(j, m, n);
    var k := i + j * n;
    var q, r := k / n, k % n;
    assert k == q * n + r;
    if q < j { RowBelow(q, j, n); }
    if j < q { RowBelow(j, q, n); }
  }

  lemma GridInverse(k: nat, m: nat, n: nat)
    requires k < m * n
    ensures n > 0 && k / n < m && k % n < n && k % n + k / n * n == k
  {
    assert n == 0 ==> m * n == 0;
    var q := k / n;
    if m <= q { RowBelow(m, q + 1, n); }
  }
}
