/** The static block partition that task2.1 (and, with the same formula,
    task2.2 and task2.3.2) uses to split the index range 0..m-1 among the
    threads of an OpenMP parallel region: thread t of p takes
    items_per_thread = m / p consecutive indices starting at t * (m / p),
    and the last thread also takes the remainder m % p. Bounds are
    inclusive, as in the source's `for (i = lb; i <= ub; i++)`. */
module BlockPartition {
  import opened Sums

  /** `lb` of thread t, line 36: t blocks of m / p indices come before it, so
      no thread of the team starts beyond m. */
  function Lower(m: nat, p: nat, t: nat): (lb: nat)
    requires 1 <= p
    ensures t <= p ==> lb <= m
  {
    if t <= p then
      MulMonotone(t, p, m / p);
      t * (m / p)
    else
      t * (m / p)
  }

  /** `ub` of thread t, line 37 (inclusive, so -1 stands for an empty range
      when m / p == 0): every thread of the team ends below m, and no range
      ends before the index just ahead of its start. */
  function Upper(m: nat, p: nat, t: nat): (ub: int)
    requires 1 <= p
    ensures t < p ==> Lower(m, p, t) - 1 <= ub < m
  {
    if t == p - 1 then m - 1
    else if t < p then
      MulMonotone(t + 1, p, m / p);
      assert (t + 1) * (m / p) == t * (m / p) + m / p;
      Lower(m, p, t) + m / p - 1
    else
      Lower(m, p, t) + m / p - 1
  }

  /** The indices that threads 0..t-1 have covered: everything below Lower(t),
      and after the last thread, everything. */
  function Finished(m: nat, p: nat, t: nat): nat
    requires 1 <= p
  {
    if t < p then Lower(m, p, t) else m
  }

  /** The one thread whose range holds index i. */
  function Owner(m: nat, p: nat, i: nat): nat
    requires 1 <= p
  {
    if m / p == 0 || i / (m / p) >= p - 1 then p - 1 else i / (m / p)
  }

  /** Every thread starts inside 0..m: the last thread's start is at most m. */
  lemma LowerBounded(m: nat, p: nat, t: nat)
    requires 1 <= p && t < p
    ensures Lower(m, p, t) <= Lower(m, p, p - 1) <= m
  {
    MulMonotone(t, p - 1, m / p);
    MulMonotone(p - 1, p, m / p);
  }

  /** The threads before t have covered no index beyond m. */
  lemma FinishedBounded(m: nat, p: nat, t: nat)
    requires 1 <= p && t <= p
    ensures Finished(m, p, t) <= m
  {
    if t < p {
      LowerBounded(m, p, t);
    }
  }

  /** Thread t's range: a thread before the last gets exactly m / p indices, the
      last gets m / p + m % p, and the first starts at 0 and the last ends at m - 1. */
  lemma RangeLength(m: nat, p: nat, t: nat)
    requires 1 <= p && t < p
    ensures Upper(m, p, t) - Lower(m, p, t) + 1 == if t == p - 1 then m / p + m % p else m / p
    ensures Lower(m, p, 0) == 0 && Upper(m, p, p - 1) == m - 1
  {
    if t == p - 1 {
      assert (p - 1) * (m / p) + m / p == p * (m / p);
    }
  }

  /** Consecutive threads' ranges abut: thread t+1 starts right after thread t
      ends, and after the last thread every index below m is done. Each range
      lies within 0..m-1, so the covered prefix only grows. */
  lemma RangesContiguous(m: nat, p: nat, t: nat)
    requires 1 <= p && t < p
    ensures Finished(m, p, t) == Lower(m, p, t)
    ensures Finished(m, p, t + 1) == Upper(m, p, t) + 1
    ensures Lower(m, p, t) <= Upper(m, p, t) + 1 <= m
  {
    LowerBounded(m, p, t);
    if t + 1 < p {
      assert (t + 1) * (m / p) == t * (m / p) + m / p;
      LowerBounded(m, p, t + 1);
    }
  }

  /** Ranges of distinct threads are disjoint: an earlier thread's range ends
      before a later thread's range begins. */
  lemma RangesDisjoint(m: nat, p: nat, s: nat, t: nat)
    requires 1 <= p && s < t < p
    ensures Upper(m, p, s) < Lower(m, p, t)
  {
    MulMonotone(s + 1, t, m / p);
    assert (s + 1) * (m / p) == s * (m / p) + m / p;
  }

  /** The Owner's range holds index i. */
  lemma OwnerHolds(m: nat, p: nat, i: nat)
    requires 1 <= p && i < m
    ensures Owner(m, p, i) < p
    ensures Lower(m, p, Owner(m, p, i)) <= i <= Upper(m, p, Owner(m, p, i))
  {
    var q := m / p;
    if q == 0 {
      assert Owner(m, p, i) == p - 1;
    } else {
      var d := i / q;
      assert d * q <= i < d * q + q by {
        assert i == d * q + i % q;
      }
      if d >= p - 1 {
        MulMonotone(p - 1, d, q);
        assert Owner(m, p, i) == p - 1;
      } else {
        assert Owner(m, p, i) == d;
      }
    }
  }

  /** Every index below m lies in exactly one thread's range, the Owner's:
      the ranges cover 0..m-1 and each row is computed exactly once. */
  lemma OwnerExact(m: nat, p: nat, i: nat, t: nat)
    requires 1 <= p && i < m && t < p
    ensures Lower(m, p, t) <= i <= Upper(m, p, t) <==> t == Owner(m, p, i)
  {
    var o := Owner(m, p, i);
    OwnerHolds(m, p, i);
    if t < o {
      RangesDisjoint(m, p, t, o);
    } else if o < t {
      RangesDisjoint(m, p, o, t);
    }
  }
}
