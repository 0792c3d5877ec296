/** Sums, permutations and counting facts used by every protocol proof. */
module Sequences {

  function Sum(s: seq<int>): (r: int)
    ensures (forall i :: 0 <= i < |s| ==> s[i] >= 0) ==> r >= 0
  {
    if s == [] then 0 else s[0] + Sum(s[1..])
  }

  lemma {:induction false} SumAppend(a: seq<int>, b: seq<int>)
    ensures Sum(a + b) == Sum(a) + Sum(b)
  {
    if a == [] {
      assert a + b == b;
    } else {
      assert (a + b)[1..] == a[1..] + b;
      SumAppend(a[1..], b);
    }
  }

  /** Prefix sums grow by the next entry. */
  lemma SumSnoc(s: seq<int>, i: nat)
    requires i < |s|
    ensures Sum(s[..i + 1]) == Sum(s[..i]) + s[i]
  {
    assert s[..i + 1] == s[..i] + [s[i]];
    SumAppend(s[..i], [s[i]]);
    assert Sum([s[i]]) == s[i] + Sum([]);
  }

  lemma {:induction false} SumPrefixMonotone(s: seq<nat>, i: nat, j: nat)
    requires i <= j <= |s|
    ensures Sum(s[..i]) <= Sum(s[..j])
    decreases j - i
  {
    if i < j {
      SumSnoc(s, j - 1);
      SumPrefixMonotone(s, i, j - 1);
    }
  }

  lemma SumPrefixAll(s: seq<nat>, i: nat)
    requires i <= |s|
    ensures Sum(s[..i]) <= Sum(s)
  {
    SumPrefixMonotone(s, i, |s|);
    assert s[..|s|] == s;
  }

  /** Replacing one entry changes the sum by the difference. */
  lemma {:induction false} SumUpdate(s: seq<int>, i: nat, v: int)
    requires i < |s|
    ensures Sum(s[i := v]) + s[i] == Sum(s) + v
  {
    if i == 0 {
      assert s[i := v][1..] == s[1..];
    } else {
      assert s[i := v][1..] == s[1..][i - 1 := v];
      SumUpdate(s[1..], i - 1, v);
    }
  }

  /** A sum grows with its entries, and by d if one of them grows by d. */
  lemma {:induction false} SumCompare(a: seq<int>, b: seq<int>)
    requires |a| == |b| && forall i :: 0 <= i < |a| ==> a[i] <= b[i]
    ensures Sum(a) <= Sum(b)
  {
    if a != [] {
      SumCompare(a[1..], b[1..]);
    }
  }

  lemma SumGrows(a: seq<int>, b: seq<int>, k: nat, d: int)
    requires |a| == |b| && k < |a| && a[k] + d <= b[k]
    requires forall i :: 0 <= i < |a| && i != k ==> a[i] <= b[i]
    ensures Sum(a) + d <= Sum(b)
  {
    SumCompare(a[k := a[k] + d], b);
    SumUpdate(a, k, a[k] + d);
  }

  lemma {:induction false} SumBound(a: seq<int>, m: int)
    requires forall i :: 0 <= i < |a| ==> a[i] <= m
    ensures Sum(a) <= |a| * m
  {
    if a != [] {
      SumBound(a[1..], m);
      assert |a| * m == |a[1..]| * m + m;
    }
  }

  function Range(lo: int, hi: int): (r: set<int>)
    ensures forall x: int :: x in r <==> lo <= x < hi
    decreases hi - lo
  {
    if lo >= hi then {} else Range(lo, hi - 1) + {hi - 1}
  }

  lemma {:induction false} RangeSize(lo: int, hi: int)
    requires lo <= hi
    ensures |Range(lo, hi)| == hi - lo
    decreases hi - lo
  {
    if lo < hi {
      RangeSize(lo, hi - 1);
    }
  }

  /** A set is no larger than a set that contains it. */
  lemma {:induction false} SubsetSize<T>(a: set<T>, b: set<T>)
    requires a <= b
    ensures |a| <= |b|
    ensures |a| == |b| ==> a == b
  {
    if a != {} {
      var x :| x in a;
      SubsetSize(a - {x}, b - {x});
      assert a == (a - {x}) + {x} && b == (b - {x}) + {x};
    } else if b != {} {
      var y :| y in b;
      assert |b| == |b - {y}| + 1;
    }
  }

  ghost predicate Injective<T>(s: seq<T>) {
    forall i, j :: 0 <= i < j < |s| ==> s[i] != s[j]
  }

  ghost predicate Increasing(s: seq<int>) {
    forall i, j :: 0 <= i < j < |s| ==> s[i] < s[j]
  }

  ghost predicate Below(s: seq<int>, n: nat) {
    forall i :: 0 <= i < |s| ==> 0 <= s[i] < n
  }

  /** A rearrangement of 0, 1, ..., |p| - 1. */
  ghost predicate IsPermutation(p: seq<int>) {
    Below(p, |p|) && Injective(p)
  }

  function Elements<T>(s: seq<T>): set<T> {
    set i | 0 <= i < |s| :: s[i]
  }

  lemma {:induction false} InjectiveSize<T>(s: seq<T>)
    requires Injective(s)
    ensures |Elements(s)| == |s|
  {
    if s != [] {
      var k := |s| - 1;
      InjectiveSize(s[..k]);
      assert Elements(s) == Elements(s[..k]) + {s[k]};
      assert s[k] !in Elements(s[..k]);
    } else {
      assert Elements(s) == {};
    }
  }

  /** Pigeonhole: at most n different numbers are below n. */
  lemma Pigeonhole(s: seq<int>, n: nat)
    requires Below(s, n) && Injective(s)
    ensures |s| <= n
  {
    InjectiveSize(s);
    RangeSize(0, n);
    SubsetSize(Elements(s), Range(0, n));
  }

  /** A permutation reaches every value. */
  lemma PermutationReaches(p: seq<int>, v: int) returns (i: nat)
    requires IsPermutation(p) && 0 <= v < |p|
    ensures i < |p| && p[i] == v
  {
    InjectiveSize(p);
    RangeSize(0, |p|);
    SubsetSize(Elements(p), Range(0, |p|));
    assert v in Elements(p);
    i :| 0 <= i < |p| && p[i] == v;
  }

  /** The positions that a permutation sends into [lo, hi). */
  function Preimage(p: seq<int>, lo: int, hi: int): set<int> {
    set i: int | 0 <= i < |p| && lo <= p[i] < hi
  }

  lemma {:induction false} PreimageSize(p: seq<int>, lo: nat, hi: nat)
    requires IsPermutation(p) && lo <= hi <= |p|
    ensures |Preimage(p, lo, hi)| == hi - lo
    decreases hi - lo
  {
    if lo < hi {
      var i := PermutationReaches(p, hi - 1);
      assert Preimage(p, lo, hi) == Preimage(p, lo, hi - 1) + {i};
      PreimageSize(p, lo, hi - 1);
    } else {
      assert Preimage(p, lo, hi) == {};
    }
  }
}
