/** task2.1: the row-major matrix-vector product c[i] = sum_j a[i*n+j] * b[j],
    serial and split among threads by the block partition, and the loops that
    fill a with a[i*n+j] = i+j and b with b[j] = j, serial and split. The
    source's doubles are modelled as integers. A parallel region is modelled
    as its threads' bodies run one after another in thread-id order. Each
    thread's method is specified on whatever the arrays hold when it starts
    and writes only its own range, and the ranges are disjoint
    (BlockPartition), so any other order writes the same values. */
module FlatMatVec {
  import opened Sums
  import opened BlockPartition

  /** Row i of the row-major m-by-n matrix stored in a. */
  function Row(a: seq<int>, n: nat, i: nat): seq<int>
    requires i * n + n <= |a|
  {
    a[i * n .. i * n + n]
  }

  /** The vector of row products of the first m rows of a with b. */
  function Product(a: seq<int>, b: seq<int>, m: nat, n: nat): (c: seq<int>)
    requires m * n <= |a| && n <= |b|
    ensures |c| == m
  {
    if m == 0 then []
    else
      assert (m - 1) * n + n == m * n;
      Product(a, b, m - 1, n) + [Dot(Row(a, n, m - 1), b)]
  }

  /** Entry i of the product is row i of a times b, for every i < m. */
  lemma {:induction false} ProductAt(a: seq<int>, b: seq<int>, m: nat, n: nat, i: nat)
    requires m * n <= |a| && n <= |b| && i < m
    ensures i * n + n <= |a|
    ensures Product(a, b, m, n)[i] == Dot(a[i * n .. i * n + n], b)
  {
    MulMonotone(i + 1, m, n);
    assert (i + 1) * n == i * n + n;
    if i < m - 1 {
      assert (m - 1) * n + n == m * n;
      ProductAt(a, b, m - 1, n, i);
    }
  }

  /** The body of the row loop, lines 21-23 and 39-41: c[i] := sum_j a[i*n+j] * b[j]. */
  method ComputeRow(a: array<int>, b: array<int>, c: array<int>, i: nat, n: nat)
    requires c != a && c != b
    requires i * n + n <= a.Length && n <= b.Length && i < c.Length
    modifies c
    ensures c[i] == Dot(Row(a[..], n, i), b[..])
    ensures forall k | 0 <= k < c.Length && k != i :: c[k] == old(c[k])
  {
    c[i] := 0;
    var j := 0;
    while j < n
      invariant 0 <= j <= n
      invariant c[i] == Dot(a[i * n .. i * n + j], b[..])
      invariant forall k | 0 <= k < c.Length && k != i :: c[k] == old(c[k])
    {
      assert a[i * n .. i * n + j + 1][..j] == a[i * n .. i * n + j];
      c[i] := c[i] + a[i * n + j] * b[j];
      j := j + 1;
    }
    assert a[i * n .. i * n + n] == Row(a[..], n, i);
  }

  /** matrix_vector_product: fills c[0..m) with the product and leaves the
      rest of c, and a and b, as they were. */
  method MatrixVectorProduct(a: array<int>, b: array<int>, c: array<int>, m: nat, n: nat)
    requires c != a && c != b
    requires m * n <= a.Length && n <= b.Length && m <= c.Length
    modifies c
    ensures c[..m] == Product(a[..], b[..], m, n)
    ensures c[m..] == old(c[m..])
  {
    ComputeRows(a, b, c, m, n, 0, m);
  }

  /** Rows lo..hi-1 of the m-row product: the row loop
      `for (i = lb; i <= ub; i++)` of lines 38-43 with hi = ub + 1. Whatever c
      held, entry k becomes entry k of the product for lo <= k < hi, and no
      other entry changes. */
  method ComputeRows(a: array<int>, b: array<int>, c: array<int>, m: nat, n: nat, lo: nat, hi: nat)
    requires c != a && c != b
    requires lo <= hi <= m <= c.Length && m * n <= a.Length && n <= b.Length
    modifies c
    ensures forall k | lo <= k < hi :: c[k] == Product(a[..], b[..], m, n)[k]
    ensures forall k | 0 <= k < c.Length && !(lo <= k < hi) :: c[k] == old(c[k])
  {
    var i := lo;
    while i < hi
      invariant lo <= i <= hi
      invariant forall k | lo <= k < i :: c[k] == Product(a[..], b[..], m, n)[k]
      invariant forall k | 0 <= k < c.Length && !(lo <= k < i) :: c[k] == old(c[k])
    {
      ProductAt(a[..], b[..], m, n, i);
      ComputeRow(a, b, c, i, n);
      i := i + 1;
    }
  }

  /** One thread's share of matrix_vector_product_omp, lines 33-43. Whatever
      c held, entries Lower(t)..Upper(t) become those entries of the product
      and no other entry changes, so the thread's effect does not depend on
      what the other threads have done. */
  method ProductThread(a: array<int>, b: array<int>, c: array<int>, m: nat, n: nat, p: nat, t: nat)
    requires c != a && c != b
    requires m * n <= a.Length && n <= b.Length && m <= c.Length
    requires 1 <= p && t < p
    modifies c
    ensures Lower(m, p, t) <= Upper(m, p, t) + 1 <= m
    ensures forall k | Lower(m, p, t) <= k <= Upper(m, p, t) :: c[k] == Product(a[..], b[..], m, n)[k]
    ensures forall k | 0 <= k < c.Length && !(Lower(m, p, t) <= k <= Upper(m, p, t)) :: c[k] == old(c[k])
  {
    RangesContiguous(m, p, t);
    ComputeRows(a, b, c, m, n, Lower(m, p, t), Upper(m, p, t) + 1);
  }

  /** matrix_vector_product_omp with `threads` threads: every thread's share,
      in thread-id order. The result is the serial product. */
  method MatrixVectorProductOmp(a: array<int>, b: array<int>, c: array<int>, m: nat, n: nat, threads: nat)
    requires c != a && c != b
    requires m * n <= a.Length && n <= b.Length && m <= c.Length
    requires 1 <= threads
    modifies c
    ensures c[..m] == Product(a[..], b[..], m, n)
    ensures c[m..] == old(c[m..])
  {
    var t := 0;
    while t < threads
      invariant 0 <= t <= threads
      invariant Finished(m, threads, t) <= m
      invariant forall k | 0 <= k < Finished(m, threads, t) :: c[k] == Product(a[..], b[..], m, n)[k]
      invariant forall k | Finished(m, threads, t) <= k < c.Length :: c[k] == old(c[k])
    {
      RangesContiguous(m, threads, t);
      ProductThread(a, b, c, m, n, threads, t);
      t := t + 1;
    }
  }

  /** Rows lo..hi-1 of the matrix that the initialisation loops write, in
      row-major order: entry (i, j) is i + j. */
  function InitRows(lo: nat, hi: nat, n: nat): (r: seq<int>)
    requires lo <= hi
    ensures |r| == (hi - lo) * n
  {
    if hi == lo then []
    else
      assert (hi - 1 - lo) * n + n == (hi - lo) * n;
      InitRows(lo, hi - 1, n) + InitRow(hi - 1, n)
  }

  /** The whole m-by-n matrix that the initialisation loops write. */
  function InitMatrix(m: nat, n: nat): (r: seq<int>)
    ensures |r| == m * n
  {
    InitRows(0, m, n)
  }

  /** Row i of the initialised matrix: i, i+1, ..., i+n-1. */
  function InitRow(i: nat, n: nat): seq<int>
  {
    seq(n, j => i + j)
  }

  /** The vector that the initialisation loops write: b[j] = j. */
  function InitVector(n: nat): seq<int>
  {
    seq(n, j => j)
  }

  /** Two consecutive blocks of initialised rows make one block. */
  lemma {:induction false} InitRowsSplit(lo: nat, mid: nat, hi: nat, n: nat)
    requires lo <= mid <= hi
    ensures InitRows(lo, hi, n) == InitRows(lo, mid, n) + InitRows(mid, hi, n)
    decreases hi
  {
    if mid < hi {
      InitRowsSplit(lo, mid, hi - 1, n);
    }
  }

  /** In row-major order, entry i*n+j of InitMatrix(m, n) is i + j. */
  lemma {:induction false} InitMatrixAt(m: nat, n: nat, i: nat, j: nat)
    requires i < m && j < n
    ensures i * n + j < m * n
    ensures InitMatrix(m, n)[i * n + j] == i + j
  {
    MulMonotone(i + 1, m, n);
    assert (i + 1) * n == i * n + n;
    assert (m - 1) * n + n == m * n;
    assert InitMatrix(m, n) == InitMatrix(m - 1, n) + InitRow(m - 1, n);
    if i < m - 1 {
      MulMonotone(i + 1, m - 1, n);
      InitMatrixAt(m - 1, n, i, j);
    }
  }

  /** The body of the row loop of the initialisation, lines 65-66 and 110-111:
      a[i*n+j] := i+j for j < n. */
  method FillRow(a: array<int>, i: nat, n: nat)
    requires i * n + n <= a.Length
    modifies a
    ensures a[i * n .. i * n + n] == InitRow(i, n)
    ensures forall k | 0 <= k < a.Length && !(i * n <= k < i * n + n) :: a[k] == old(a[k])
  {
    var j := 0;
    while j < n
      invariant 0 <= j <= n
      invariant a[i * n .. i * n + j] == InitRow(i, n)[..j]
      invariant forall k | 0 <= k < a.Length && !(i * n <= k < i * n + j) :: a[k] == old(a[k])
    {
      a[i * n + j] := i + j;
      assert a[i * n .. i * n + j + 1] == a[i * n .. i * n + j] + [i + j];
      j := j + 1;
    }
  }

  /** Rows lo..hi-1 of the matrix: the row loops of lines 63-67 (lo = 0,
      hi = m) and 108-112. Whatever a held, the block of rows lo..hi-1
      becomes initialised and no entry outside it changes. */
  method FillRows(a: array<int>, n: nat, lo: nat, hi: nat)
    requires lo <= hi && hi * n <= a.Length
    modifies a
    ensures lo * n <= hi * n
    ensures a[lo * n .. hi * n] == InitRows(lo, hi, n)
    ensures forall k | 0 <= k < a.Length && !(lo * n <= k < hi * n) :: a[k] == old(a[k])
  {
    MulMonotone(lo, hi, n);
    var i := lo;
    var row := lo * n;
    while i < hi
      invariant lo <= i <= hi && row == i * n
      invariant lo * n <= row <= a.Length
      invariant a[lo * n .. row] == InitRows(lo, i, n)
      invariant forall k | 0 <= k < a.Length && !(lo * n <= k < row) :: a[k] == old(a[k])
    {
      assert row + n <= a.Length && (i + 1) * n == row + n by {
        MulMonotone(i + 1, hi, n);
      }
      ghost var done := a[lo * n .. row];
      FillRow(a, i, n);
      assert a[lo * n .. row] == done;
      assert a[lo * n .. row + n] == a[lo * n .. row] + a[row .. row + n];
      i := i + 1;
      row := row + n;
    }
  }

  /** Entries lo..hi-1 of the vector: the loops of lines 69-70 (lo = 0,
      hi = n) and 118-119. Whatever b held, b[j] becomes j for lo <= j < hi
      and no other entry changes. */
  method FillEntries(b: array<int>, lo: nat, hi: nat)
    requires lo <= hi <= b.Length
    modifies b
    ensures forall j | lo <= j < hi :: b[j] == j
    ensures forall k | 0 <= k < b.Length && !(lo <= k < hi) :: b[k] == old(b[k])
  {
    var j := lo;
    while j < hi
      invariant lo <= j <= hi
      invariant forall k | lo <= k < j :: b[k] == k
      invariant forall k | 0 <= k < b.Length && !(lo <= k < j) :: b[k] == old(b[k])
    {
      b[j] := j;
      j := j + 1;
    }
  }

  /** run_serial's initialisation, lines 63-70. */
  method InitSerial(a: array<int>, b: array<int>, m: nat, n: nat)
    requires a != b
    requires m * n <= a.Length && n <= b.Length
    modifies a, b
    ensures a[..m * n] == InitMatrix(m, n) && a[m * n..] == old(a[m * n..])
    ensures b[..n] == InitVector(n) && b[n..] == old(b[n..])
  {
    FillRows(a, n, 0, m);
    FillEntries(b, 0, n);
  }

  /** One thread's share of run_parallel's initialisation, lines 102-119.
      Whatever a and b held, rows Lower(t)..Upper(t) of a under the partition
      of m and entries Lower(t)..Upper(t) of b under the partition of n
      become initialised, and nothing else changes. */
  method InitThread(a: array<int>, b: array<int>, m: nat, n: nat, p: nat, t: nat)
    requires a != b
    requires m * n <= a.Length && n <= b.Length
    requires 1 <= p <= m && p <= n && t < p
    modifies a, b
    ensures Lower(m, p, t) <= Upper(m, p, t) + 1 <= m && Lower(n, p, t) <= Upper(n, p, t) + 1 <= n
    ensures Lower(m, p, t) * n <= (Upper(m, p, t) + 1) * n <= a.Length
    ensures a[Lower(m, p, t) * n .. (Upper(m, p, t) + 1) * n]
      == InitRows(Lower(m, p, t), Upper(m, p, t) + 1, n)
    ensures forall k | 0 <= k < a.Length && !(Lower(m, p, t) * n <= k < (Upper(m, p, t) + 1) * n) ::
      a[k] == old(a[k])
    ensures forall j | Lower(n, p, t) <= j <= Upper(n, p, t) :: b[j] == j
    ensures forall k | 0 <= k < b.Length && !(Lower(n, p, t) <= k <= Upper(n, p, t)) :: b[k] == old(b[k])
  {
    var lb := Lower(m, p, t);
    var ub := Upper(m, p, t);
    assert lb <= ub + 1 <= m && (ub + 1) * n <= a.Length by {
      RangesContiguous(m, p, t);
      MulMonotone(ub + 1, m, n);
    }
    FillRows(a, n, lb, ub + 1);
    lb := Lower(n, p, t);
    ub := Upper(n, p, t);
    assert lb <= ub + 1 <= n by {
      RangesContiguous(n, p, t);
    }
    FillEntries(b, lb, ub + 1);
  }

  /** run_parallel's initialisation with p threads, each thread's share in
      thread-id order. It writes what run_serial's loops write. The source
      compares a size_t index with an int bound, so a thread whose range is
      empty (ub = -1) would run off the array: every range must be non-empty,
      which holds exactly when p <= m and p <= n. */
  method InitParallel(a: array<int>, b: array<int>, m: nat, n: nat, p: nat)
    requires a != b
    requires m * n <= a.Length && n <= b.Length
    requires 1 <= p <= m && p <= n
    modifies a, b
    ensures a[..m * n] == InitMatrix(m, n) && a[m * n..] == old(a[m * n..])
    ensures b[..n] == InitVector(n) && b[n..] == old(b[n..])
  {
    var t := 0;
    while t < p
      invariant 0 <= t <= p
      invariant Finished(m, p, t) * n <= a.Length && Finished(n, p, t) <= n
      invariant a[..Finished(m, p, t) * n] == InitMatrix(Finished(m, p, t), n)
      invariant forall k | Finished(m, p, t) * n <= k < a.Length :: a[k] == old(a[k])
      invariant forall j | 0 <= j < Finished(n, p, t) :: b[j] == j
      invariant forall k | Finished(n, p, t) <= k < b.Length :: b[k] == old(b[k])
    {
      ghost var lo := Finished(m, p, t);
      ghost var hi := Finished(m, p, t + 1);
      RangesContiguous(m, p, t);
      RangesContiguous(n, p, t);
      FinishedBounded(m, p, t + 1);
      MulMonotone(hi, m, n);
      ghost var done := a[..lo * n];
      InitThread(a, b, m, n, p, t);
      assert a[..lo * n] == done;
      assert a[..hi * n] == a[..lo * n] + a[lo * n .. hi * n];
      InitRowsSplit(0, lo, hi, n);
      t := t + 1;
    }
  }
}
