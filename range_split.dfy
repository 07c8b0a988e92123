/** task3.1: an integer matrix-vector product and an array initialisation,
    each over a half-open row range [lb, ub), and main's split of M rows among
    p threads as [k*r, (k+1)*r) with r = M / p. Threads are modelled as their
    calls run one after another in k order; the ranges are disjoint, so the
    calls commute. */
module RangeSplit {
  import opened Sums

  /** matrix_vector_product(matrix, vector, result, lb, ub): for every row i in
      [lb, ub), result[i] becomes row i of matrix times vector; every other
      entry of result keeps its value. The row loop indexes result[i] and
      matrix[i], and the inner loop reads vector[j] for j < |matrix[i]|, so a
      non-empty range must lie within both and its rows must be no longer
      than vector. */
  method MatrixVectorProduct(matrix: seq<seq<int>>, vector: seq<int>, result: array<int>, lb: int, ub: int)
    requires lb < ub ==> 0 <= lb && ub <= |matrix| && ub <= result.Length
    requires forall i | lb <= i < ub && 0 <= i < |matrix| :: |matrix[i]| <= |vector|
    modifies result
    ensures forall i | lb <= i < ub :: result[i] == Dot(matrix[i], vector)
    ensures forall i | 0 <= i < result.Length && !(lb <= i < ub) :: result[i] == old(result[i])
  {
    var i := lb;
    while i < ub
      invariant i == lb || lb <= i <= ub
      invariant forall k | lb <= k < i :: result[k] == Dot(matrix[k], vector)
      invariant forall k | 0 <= k < result.Length && !(lb <= k < i) :: result[k] == old(result[k])
    {
      result[i] := 0;
      var j := 0;
      while j < |matrix[i]|
        invariant 0 <= j <= |matrix[i]|
        invariant result[i] == Dot(matrix[i][..j], vector)
        invariant forall k | lb <= k < i :: result[k] == Dot(matrix[k], vector)
        invariant forall k | 0 <= k < result.Length && !(lb <= k <= i) :: result[k] == old(result[k])
      {
        assert matrix[i][..j + 1][..j] == matrix[i][..j];
        result[i] := result[i] + matrix[i][j] * vector[j];
        j := j + 1;
      }
      assert matrix[i][..j] == matrix[i];
      i := i + 1;
    }
  }

  /** parallelArrayInit(array, start, end): entry i becomes i for every i in
      [start, end); every other entry keeps its value. */
  method ParallelArrayInit(a: array<int>, start: int, end: int)
    requires start < end ==> 0 <= start && end <= a.Length
    modifies a
    ensures forall i | 0 <= i < a.Length :: a[i] == if start <= i < end then i else old(a[i])
  {
    var i := start;
    while i < end
      invariant i == start || start <= i <= end
      invariant forall k | 0 <= k < a.Length :: a[k] == if start <= k < i then k else old(a[k])
    {
      a[i] := i;
      i := i + 1;
    }
  }

  /** range_size = M / p, line 38: the largest number of rows that p threads
      can each take out of M. */
  function RangeSize(M: nat, p: nat): (r: nat)
    requires 1 <= p
    ensures p * r <= M < p * r + p
  {
    M / p
  }

  /** Thread k's first row, k * range_size (line 41): a thread of the team
      has a whole range_size of rows from its start to M. */
  function Start(M: nat, p: nat, k: nat): (s: nat)
    requires 1 <= p
    ensures k < p ==> s + RangeSize(M, p) <= M
  {
    if k < p then
      MulMonotone(k + 1, p, RangeSize(M, p));
      assert (k + 1) * RangeSize(M, p) == k * RangeSize(M, p) + RangeSize(M, p);
      k * RangeSize(M, p)
    else
      k * RangeSize(M, p)
  }

  /** Thread k's end row (exclusive). As written, (k + 1) * range_size for every
      thread (line 41); with absorbRemainder, the last thread ends at M instead,
      the way task2.1's partition hands the remainder to the last thread. A
      thread of the team ends at or after its start and at or before M. */
  function End(M: nat, p: nat, absorbRemainder: bool, k: nat): (e: nat)
    requires 1 <= p
    ensures k < p ==> Start(M, p, k) <= e <= M
  {
    if absorbRemainder && k == p - 1 then M
    else
      assert (k + 1) * RangeSize(M, p) == Start(M, p, k) + RangeSize(M, p);
      (k + 1) * RangeSize(M, p)
  }

  /** Row i is in thread k's range. */
  predicate InRange(M: nat, p: nat, absorbRemainder: bool, k: nat, i: nat)
    requires 1 <= p
  {
    Start(M, p, k) <= i < End(M, p, absorbRemainder, k)
  }

  /** Row i is in some thread's range. */
  ghost predicate Covered(M: nat, p: nat, absorbRemainder: bool, i: nat)
    requires 1 <= p
  {
    exists k: nat :: k < p && InRange(M, p, absorbRemainder, k, i)
  }

  /** Where the union of the ranges ends: p * range_size as written, M when the
      last thread absorbs the remainder. */
  function Reach(M: nat, p: nat, absorbRemainder: bool): nat
    requires 1 <= p
  {
    if absorbRemainder then M else p * RangeSize(M, p)
  }

  /** The rows threads 0..k-1 have covered. */
  function Done(M: nat, p: nat, absorbRemainder: bool, k: nat): nat
    requires 1 <= p
  {
    if k < p then Start(M, p, k) else Reach(M, p, absorbRemainder)
  }

  /** Thread k's range lies within 0..M and starts where the previous one
      ended; the last one ends at Reach. */
  lemma SplitStep(M: nat, p: nat, absorbRemainder: bool, k: nat)
    requires 1 <= p && k < p
    ensures Done(M, p, absorbRemainder, k) == Start(M, p, k)
    ensures Done(M, p, absorbRemainder, k + 1) == End(M, p, absorbRemainder, k)
    ensures Start(M, p, k) <= End(M, p, absorbRemainder, k) <= Reach(M, p, absorbRemainder) <= M
  {
    var r := RangeSize(M, p);
    assert (k + 1) * r == k * r + r;
    MulMonotone(k + 1, p, r);
    assert p * r <= M;
    if absorbRemainder {
      MulMonotone(k, p - 1, r);
      assert (p - 1) * r + r == p * r;
    }
  }

  /** The ranges of two distinct threads are disjoint (the earlier one ends
      where or before the later one starts), so the threads' calls commute. */
  lemma SplitDisjoint(M: nat, p: nat, absorbRemainder: bool, k1: nat, k2: nat)
    requires 1 <= p && k1 < k2 < p
    ensures End(M, p, absorbRemainder, k1) <= Start(M, p, k2)
    ensures forall i: nat :: !(InRange(M, p, absorbRemainder, k1, i) && InRange(M, p, absorbRemainder, k2, i))
  {
    MulMonotone(k1 + 1, k2, RangeSize(M, p));
  }

  /** Every row below Reach lies in some thread's range: thread i / range_size,
      or the last thread for the rows the absorbing split adds. */
  lemma {:induction false} CoveredBelowReach(M: nat, p: nat, absorbRemainder: bool, i: nat)
    requires 1 <= p && i < Reach(M, p, absorbRemainder)
    ensures Covered(M, p, absorbRemainder, i)
  {
    var r := RangeSize(M, p);
    if r == 0 {
      assert InRange(M, p, absorbRemainder, p - 1, i) by {
        assert Start(M, p, p - 1) == 0;
      }
    } else {
      var d := i / r;
      assert d * r <= i < d * r + r by {
        assert i == d * r + i % r;
      }
      if d < p {
        assert InRange(M, p, absorbRemainder, d, i) by {
          assert (d + 1) * r == d * r + r;
        }
      } else {
        assert InRange(M, p, absorbRemainder, p - 1, i) by {
          assert absorbRemainder by {
            MulMonotone(p, d, r);
          }
          MulMonotone(p - 1, d, r);
        }
      }
    }
  }

  /** The union of the ranges is exactly [0, Reach): a row below M is covered
      if and only if it lies below Reach. */
  lemma CoveredIff(M: nat, p: nat, absorbRemainder: bool, i: nat)
    requires 1 <= p && i < M
    ensures Covered(M, p, absorbRemainder, i) <==> i < Reach(M, p, absorbRemainder)
  {
    if Covered(M, p, absorbRemainder, i) {
      var k: nat :| k < p && InRange(M, p, absorbRemainder, k, i);
      SplitStep(M, p, absorbRemainder, k);
    }
    if i < Reach(M, p, absorbRemainder) {
      CoveredBelowReach(M, p, absorbRemainder, i);
    }
  }

  /** Every row is covered exactly when p divides M or the last thread absorbs
      the remainder. */
  lemma ReachIsM(M: nat, p: nat, absorbRemainder: bool)
    requires 1 <= p
    ensures Reach(M, p, absorbRemainder) <= M
    ensures Reach(M, p, absorbRemainder) == M <==> absorbRemainder || M % p == 0
  {
    assert M == p * (M / p) + M % p;
  }

  /** The split as written leaves row 19999 out for 7 threads and M = 20000,
      the source's default size and one of its listed thread counts. */
  lemma SevenThreadsLeaveRowOut()
    ensures Reach(20000, 7, false) == 19999
    ensures !Covered(20000, 7, false, 19999)
  {
    CoveredIff(20000, 7, false, 19999);
  }

  /** With the remainder absorbed by the last thread, every row below M is in
      exactly one thread's range. */
  lemma AbsorbingSplitCovers(M: nat, p: nat, i: nat)
    requires 1 <= p && i < M
    ensures Covered(M, p, true, i)
    ensures forall k1: nat, k2: nat | k1 < p && k2 < p && InRange(M, p, true, k1, i) && InRange(M, p, true, k2, i) :: k1 == k2
  {
    CoveredIff(M, p, true, i);
    forall k1: nat, k2: nat | k1 < p && k2 < p && InRange(M, p, true, k1, i) && InRange(M, p, true, k2, i)
      ensures k1 == k2
    {
      if k1 < k2 {
        SplitDisjoint(M, p, true, k1, k2);
      } else if k2 < k1 {
        SplitDisjoint(M, p, true, k2, k1);
      }
    }
  }

  /** A row of main's matrix: M ones. */
  function Ones(M: nat): seq<int>
  {
    seq(M, _ => 1)
  }

  /** main's vector after the initialisation threads: entry i is i below q, and
      keeps its initial 2 from q on. */
  function VectorAfterInit(M: nat, q: nat): seq<int>
  {
    seq(M, i => if i < q then i else 2)
  }

  /** The first k entries of Ones(M) times VectorAfterInit(M, q), in closed form:
      0 + 1 + ... + (min(k, q) - 1), plus 2 for each entry from q on. */
  lemma {:induction false} DotOnesPrefix(M: nat, q: nat, k: nat)
    requires k <= M
    ensures 2 * Dot(Ones(M)[..k], VectorAfterInit(M, q)) == if k <= q then k * (k - 1) else q * (q - 1) + 4 * (k - q)
  {
    if k > 0 {
      DotOnesPrefix(M, q, k - 1);
      assert Ones(M)[..k][..k - 1] == Ones(M)[..k - 1];
    }
  }

  /** Row i of main's result for a covered row, in closed form. */
  lemma DotOnes(M: nat, q: nat)
    requires q <= M
    ensures 2 * Dot(Ones(M), VectorAfterInit(M, q)) == q * (q - 1) + 4 * (M - q)
  {
    DotOnesPrefix(M, q, M);
    assert Ones(M)[..M] == Ones(M);
  }

  /** One iteration of main's loop over thread counts, lines 32-54, with p
      threads: an M-by-M matrix of ones, a vector of twos and a zero result;
      the threads initialise their ranges of the vector, then compute their
      ranges of the result. Rows from Reach on are never touched: as written,
      for p not dividing M, vector keeps its 2 and result its 0 there. */
  method MainIteration(M: nat, p: nat, absorbRemainder: bool) returns (vector: array<int>, result: array<int>)
    requires 1 <= p
    ensures vector.Length == M && result.Length == M
    ensures vector[..] == VectorAfterInit(M, Reach(M, p, absorbRemainder))
    ensures forall i | 0 <= i < M ::
      result[i] == if i < Reach(M, p, absorbRemainder) then Dot(Ones(M), vector[..]) else 0
    ensures forall i | 0 <= i < M && i < Reach(M, p, absorbRemainder) ::
      var q := Reach(M, p, absorbRemainder);
      2 * result[i] == q * (q - 1) + 4 * (M - q)
  {
    var matrix := seq(M, _ => Ones(M));
    vector := new int[M](_ => 2);
    result := new int[M](_ => 0);
    ghost var q := Reach(M, p, absorbRemainder);
    ReachIsM(M, p, absorbRemainder);

    var k := 0;
    while k < p
      invariant 0 <= k <= p
      invariant Done(M, p, absorbRemainder, k) <= M
      invariant forall i | 0 <= i < M :: vector[i] == if i < Done(M, p, absorbRemainder, k) then i else 2
      invariant result[..] == seq(M, _ => 0)
    {
      SplitStep(M, p, absorbRemainder, k);
      ParallelArrayInit(vector, Start(M, p, k), End(M, p, absorbRemainder, k));
      k := k + 1;
    }
    assert vector[..] == VectorAfterInit(M, q);

    k := 0;
    while k < p
      invariant 0 <= k <= p
      invariant Done(M, p, absorbRemainder, k) <= M
      invariant vector[..] == VectorAfterInit(M, q)
      invariant forall i | 0 <= i < M :: result[i] == if i < Done(M, p, absorbRemainder, k) then Dot(Ones(M), vector[..]) else 0
    {
      SplitStep(M, p, absorbRemainder, k);
      MatrixVectorProduct(matrix, vector[..], result, Start(M, p, k), End(M, p, absorbRemainder, k));
      k := k + 1;
    }
    DotOnes(M, q);
  }
}
