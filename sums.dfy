/** Arithmetic shared by the matrix-vector kernels of task2.1 and task3.1. */
module Sums {

  /** The inner product of `u` with the first |u| entries of `v`, accumulated
      left to right as the kernels' inner loops accumulate it. */
  function Dot(u: seq<int>, v: seq<int>): int
    requires |u| <= |v|
  {
    if |u| == 0 then 0 else Dot(u[..|u| - 1], v) + u[|u| - 1] * v[|u| - 1]
  }

  /** Multiplying by a non-negative factor keeps the order. */
  lemma {:induction false} MulMonotone(x: int, y: int, n: nat)
    requires x <= y
    ensures x * n <= y * n
  {
    if n > 0 {
      MulMonotone(x, y, n - 1);
      assert x * n == x * (n - 1) + x;
      assert y * n == y * (n - 1) + y;
    }
  }
}
