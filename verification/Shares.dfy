/**
 The balanced split that ranks, CTAs and shards all use: part i of `parts` gets total / parts
 items, and the first total % parts of them get one more.
 */
module Shares {
  import opened Arith

  function ShareBegin(total: nat, parts: nat, i: nat): nat
    requires parts > 0
  {
    DivBounds(total, parts);
    MulNonneg(i, total / parts);
    i * (total / parts) + Min(i, total % parts)
  }

  function ShareCount(total: nat, parts: nat, i: nat): nat
    requires parts > 0
  {
    DivBounds(total, parts);
    total / parts + if i < total % parts then 1 else 0
  }

  /** A part ends where the next one begins. */
  lemma ShareEnd(total: nat, parts: nat, i: nat)
    requires parts > 0
    ensures ShareBegin(total, parts, i) + ShareCount(total, parts, i) == ShareBegin(total, parts, i + 1)
  {
  }

  /** The parts together are [0, total). */
  lemma ShareEnds(total: nat, parts: nat)
    requires parts > 0
    ensures ShareBegin(total, parts, 0) == 0 && ShareBegin(total, parts, parts) == total
  {
  }

  /** The first parts are the larger ones. */
  lemma SharesShrink(total: nat, parts: nat, i: nat, j: nat)
    requires parts > 0 && i <= j
    ensures ShareCount(total, parts, j) <= ShareCount(total, parts, i)
  {
  }

  lemma ShareMonotone(total: nat, parts: nat, i: nat, j: nat)
    requires parts > 0 && i <= j
    ensures ShareBegin(total, parts, i) <= ShareBegin(total, parts, j)
  {
    DivBounds(total, parts);
    MulLe(i, j, total / parts);
  }

  ghost predicate InShare(total: nat, parts: nat, i: nat, x: int)
    requires parts > 0
  {
    ShareBegin(total, parts, i) <= x < ShareBegin(total, parts, i) + ShareCount(total, parts, i)
  }

  lemma {:induction false} FindShare(total: nat, parts: nat, n: nat, x: nat) returns (i: nat)
    requires parts > 0 && n > 0 && x < ShareBegin(total, parts, n)
    ensures i < n && InShare(total, parts, i, x)
    decreases n
  {
    ShareEnds(total, parts);
    ShareEnd(total, parts, n - 1);
    if x < ShareBegin(total, parts, n - 1) {
      i := FindShare(total, parts, n - 1, x);
    } else {
      i := n - 1;
    }
  }

  lemma SharesApart(total: nat, parts: nat, i: nat, j: nat, x: int)
    requires parts > 0 && i < j && InShare(total, parts, i, x)
    ensures !InShare(total, parts, j, x)
  {
    ShareEnd(total, parts, i);
    ShareMonotone(total, parts, i + 1, j);
  }

  /** Exact cover: every item is in exactly one part. */
  lemma ShareOf(total: nat, parts: nat, x: nat) returns (i: nat)
    requires parts > 0 && x < total
    ensures i < parts && InShare(total, parts, i, x)
    ensures forall j: nat :: InShare(total, parts, j, x) ==> j == i
  {
    ShareEnds(total, parts);
    i := FindShare(total, parts, parts, x);
    forall j: nat | InShare(total, parts, j, x) ensures j == i {
      if j < i {
        SharesApart(total, parts, j, i, x);
      } else if i < j {
        SharesApart(total, parts, i, j, x);
      }
    }
  }

  /** No part reaches past the total, and sizes differ by at most one. */
  lemma ShareFits(total: nat, parts: nat, i: nat)
    requires parts > 0 && i < parts
    ensures ShareBegin(total, parts, i) + ShareCount(total, parts, i) <= total
    ensures total / parts <= ShareCount(total, parts, i) <= total / parts + 1
  {
    ShareEnd(total, parts, i);
    ShareMonotone(total, parts, i + 1, parts);
    ShareEnds(total, parts);
  }
}
