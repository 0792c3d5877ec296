/** `torch.sort(keys, stable=True)`: the index list it returns, and why that list is unique. */
module StableSort {
  import opened Sequences

  /** Index i comes before index j in a stable sort of the keys. */
  predicate Before(keys: seq<int>, i: nat, j: nat)
    requires i < |keys| && j < |keys|
  {
    keys[i] < keys[j] || (keys[i] == keys[j] && i < j)
  }

  ghost predicate SortedPrefix(keys: seq<int>, idx: seq<int>) {
    && Below(idx, |keys|)
    && forall a, b :: 0 <= a < b < |idx| ==> Before(keys, idx[a], idx[b])
  }

  /** idx lists every index of the keys once, in stable order. */
  ghost predicate IsStableSort(keys: seq<int>, idx: seq<int>) {
    |idx| == |keys| && SortedPrefix(keys, idx)
  }

  /** Puts index i into a sorted list, after every index whose key is not larger. */
  function Insert(keys: seq<int>, idx: seq<int>, i: nat): (r: seq<int>)
    requires i < |keys| && SortedPrefix(keys, idx)
    requires forall a :: 0 <= a < |idx| ==> idx[a] < i
    ensures SortedPrefix(keys, r) && |r| == |idx| + 1
    ensures forall a :: 0 <= a < |r| ==> r[a] <= i
    ensures forall a :: 0 <= a < |r| ==> r[a] == i || r[a] in idx
  {
    if idx == [] then [i]
    else
      var last := idx[|idx| - 1];
      if keys[last] <= keys[i] then idx + [i]
      else Insert(keys, idx[..|idx| - 1], i) + [last]
  }

  function SortFrom(keys: seq<int>, n: nat): (idx: seq<int>)
    requires n <= |keys|
    ensures SortedPrefix(keys, idx) && |idx| == n
    ensures forall a :: 0 <= a < |idx| ==> idx[a] < n
  {
    if n == 0 then [] else Insert(keys, SortFrom(keys, n - 1), n - 1)
  }

  function StableSortIndices(keys: seq<int>): (idx: seq<int>)
    ensures IsStableSort(keys, idx)
  {
    SortFrom(keys, |keys|)
  }

  lemma SortIsPermutation(keys: seq<int>, idx: seq<int>)
    requires IsStableSort(keys, idx)
    ensures IsPermutation(idx)
  {
  }

  /** Where two stable sorts agree so far, the next index of one is not before that of the other. */
  lemma NotBefore(keys: seq<int>, s: seq<int>, e: seq<int>, p: nat)
    requires IsStableSort(keys, s) && IsStableSort(keys, e)
    requires p < |keys| && s[..p] == e[..p]
    ensures !Before(keys, s[p], e[p])
  {
    SortIsPermutation(keys, s);
    SortIsPermutation(keys, e);
    var q := PermutationReaches(e, s[p]);
    if q > p {
      assert Before(keys, e[p], e[q]);
    }
  }

  lemma {:induction false} SortsAgree(keys: seq<int>, s: seq<int>, e: seq<int>, p: nat)
    requires IsStableSort(keys, s) && IsStableSort(keys, e) && p <= |keys|
    ensures s[..p] == e[..p]
  {
    if p > 0 {
      SortsAgree(keys, s, e, p - 1);
      NotBefore(keys, s, e, p - 1);
      NotBefore(keys, e, s, p - 1);
      assert s[..p] == s[..p - 1] + [s[p - 1]];
      assert e[..p] == e[..p - 1] + [e[p - 1]];
    }
  }

  /** A stable sort has only one result. */
  lemma StableSortUnique(keys: seq<int>, idx: seq<int>)
    requires IsStableSort(keys, idx)
    ensures idx == StableSortIndices(keys)
  {
    SortsAgree(keys, idx, StableSortIndices(keys), |keys|);
    assert idx[..|keys|] == idx && StableSortIndices(keys)[..|keys|] == StableSortIndices(keys);
  }
}
