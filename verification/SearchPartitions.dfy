/** The candidate segmentations of the tuner: compositions of the wave count, expanded to tiles. */
module SearchPartitions {
  import opened Arith
  import opened Sequences

  ghost predicate Positive(s: seq<nat>) {
    forall i :: 0 <= i < |s| ==> s[i] > 0
  }

  /** An ordered way to write n as a sum of positive parts. */
  ghost predicate IsComposition(p: seq<nat>, n: nat) {
    Positive(p) && Sum(p) == n
  }

  /** What `rec(left, path)` appends to the result, in order ... */
  function Extensions(left: nat, path: seq<nat>): seq<seq<nat>>
    decreases left, 1, 0
  {
    if left == 0 then [path] else ExtensionsFrom(left, path, 1)
  }

  /** ... and what its loop appends from x on. */
  function ExtensionsFrom(left: nat, path: seq<nat>, x: nat): seq<seq<nat>>
    requires left > 0 && x > 0
    decreases left, 0, left + 1 - x
  {
    if x > left then [] else Extensions(left - x, path + [x]) + ExtensionsFrom(left, path, x + 1)
  }

  method Rec(left: nat, path: seq<nat>, out: seq<seq<nat>>) returns (out': seq<seq<nat>>)
    ensures out' == out + Extensions(left, path)
    decreases left
  {
    out' := out;
    if left == 0 {
      out' := out' + [path];
      return;
    }
    var x := 1;
    while x <= left
      invariant 1 <= x <= left + 1
      invariant out' + ExtensionsFrom(left, path, x) == out + Extensions(left, path)
    {
      ghost var before := out';
      out' := Rec(left - x, path + [x], out');
      assert out' + ExtensionsFrom(left, path, x + 1) == before + ExtensionsFrom(left, path, x);
      x := x + 1;
    }
  }

  /** `integer_partitions`: every composition of n, each exactly once, 2^(n-1) of them. */
  method IntegerPartitions(n: nat) returns (out: seq<seq<nat>>)
    ensures out == Extensions(n, [])
    ensures forall p :: p in out <==> IsComposition(p, n)
    ensures Injective(out) && Sorted(out)
    ensures |out| == if n == 0 then 1 else Pow2(n - 1)
  {
    ExtensionsSorted(n, []);
    out := Rec(n, [], []);
    assert out == Extensions(n, []);
    forall p ensures p in out <==> IsComposition(p, n) {
      assert [] + p == p;
      ExtensionsComplete(n, [], p);
      if p in out {
        var tail := ExtensionsSound(n, [], p);
        assert [] + tail == tail;
      }
    }
    ExtensionsDistinct(n, []);
    ExtensionsCount(n, []);
  }

  lemma CompositionCons(x: nat, p: seq<nat>, n: nat)
    requires 0 < x <= n
    ensures IsComposition([x] + p, n) <==> IsComposition(p, n - x)
  {
  }

  /** Nothing but extensions of path by a composition of left. */
  lemma {:induction false} ExtensionsSound(left: nat, path: seq<nat>, q: seq<nat>) returns (tail: seq<nat>)
    requires q in Extensions(left, path)
    ensures q == path + tail && IsComposition(tail, left)
    decreases left, 1, 0
  {
    if left == 0 {
      tail := [];
    } else {
      tail := ExtensionsFromSound(left, path, 1, q);
    }
  }

  lemma {:induction false} ExtensionsFromSound(left: nat, path: seq<nat>, x: nat, q: seq<nat>) returns (tail: seq<nat>)
    requires left > 0 && x > 0 && q in ExtensionsFrom(left, path, x)
    ensures q == path + tail && IsComposition(tail, left) && tail != [] && tail[0] >= x
    decreases left, 0, left + 1 - x
  {
    if q in Extensions(left - x, path + [x]) {
      var rest := ExtensionsSound(left - x, path + [x], q);
      tail := [x] + rest;
      CompositionCons(x, rest, left);
    } else {
      tail := ExtensionsFromSound(left, path, x + 1, q);
    }
  }

  /** All of them. */
  lemma {:induction false} ExtensionsComplete(left: nat, path: seq<nat>, tail: seq<nat>)
    ensures IsComposition(tail, left) ==> path + tail in Extensions(left, path)
    decreases left, 1, 0
  {
    if IsComposition(tail, left) {
      if tail == [] {
        assert path + tail == path;
      } else {
        var x := tail[0];
        assert tail == [x] + tail[1..];
        CompositionCons(x, tail[1..], left);
        assert path + tail == (path + [x]) + tail[1..];
        ExtensionsComplete(left - x, path + [x], tail[1..]);
        BranchIncluded(left, path, 1, x);
      }
    }
  }

  lemma {:induction false} BranchIncluded(left: nat, path: seq<nat>, x: nat, y: nat)
    requires 0 < x <= y <= left
    ensures forall q :: q in Extensions(left - y, path + [y]) ==> q in ExtensionsFrom(left, path, x)
    decreases y - x
  {
    if x < y {
      BranchIncluded(left, path, x + 1, y);
    }
  }

  /** None twice. */
  lemma {:induction false} ExtensionsDistinct(left: nat, path: seq<nat>)
    ensures Injective(Extensions(left, path))
    decreases left, 1, 0
  {
    if left > 0 {
      ExtensionsFromDistinct(left, path, 1);
    }
  }

  lemma {:induction false} ExtensionsFromDistinct(left: nat, path: seq<nat>, x: nat)
    requires left > 0 && x > 0
    ensures Injective(ExtensionsFrom(left, path, x))
    decreases left, 0, left + 1 - x
  {
    if x <= left {
      var a, b := Extensions(left - x, path + [x]), ExtensionsFrom(left, path, x + 1);
      ExtensionsDistinct(left - x, path + [x]);
      ExtensionsFromDistinct(left, path, x + 1);
      forall i, j | 0 <= i < |a| && 0 <= j < |b| ensures a[i] != b[j] {
        BranchesDiffer(left, path, x, a[i], b[j]);
      }
      assert forall i :: 0 <= i < |a| ==> (a + b)[i] == a[i];
      assert forall i :: |a| <= i < |a| + |b| ==> (a + b)[i] == b[i - |a|];
    }
  }

  lemma BranchesDiffer(left: nat, path: seq<nat>, x: nat, p: seq<nat>, q: seq<nat>)
    requires left > 0 && 0 < x <= left
    requires p in Extensions(left - x, path + [x]) && q in ExtensionsFrom(left, path, x + 1)
    ensures p != q
  {
    var tp := ExtensionsSound(left - x, path + [x], p);
    var tq := ExtensionsFromSound(left, path, x + 1, q);
    assert p[|path|] == x && q[|path|] == tq[0];
  }

  /** Before in dictionary order, at a place where both still have parts. */
  ghost predicate LexBefore(p: seq<nat>, q: seq<nat>) {
    exists k: nat :: FirstDifference(p, q, k) && p[k] < q[k]
  }

  ghost predicate FirstDifference(p: seq<nat>, q: seq<nat>, k: nat) {
    k < |p| && k < |q| && p[..k] == q[..k]
  }

  ghost predicate Sorted(s: seq<seq<nat>>) {
    forall i, j :: 0 <= i < j < |s| ==> LexBefore(s[i], s[j])
  }

  /** They come in dictionary order. */
  lemma {:induction false} ExtensionsSorted(left: nat, path: seq<nat>)
    ensures Sorted(Extensions(left, path))
    decreases left, 1, 0
  {
    if left > 0 {
      ExtensionsFromSorted(left, path, 1);
    }
  }

  lemma {:induction false} ExtensionsFromSorted(left: nat, path: seq<nat>, x: nat)
    requires left > 0 && x > 0
    ensures Sorted(ExtensionsFrom(left, path, x))
    decreases left, 0, left + 1 - x
  {
    if x <= left {
      var a, b := Extensions(left - x, path + [x]), ExtensionsFrom(left, path, x + 1);
      ExtensionsSorted(left - x, path + [x]);
      ExtensionsFromSorted(left, path, x + 1);
      forall i, j | 0 <= i < |a| && 0 <= j < |b| ensures LexBefore(a[i], b[j]) {
        BranchesInOrder(left, path, x, a[i], b[j]);
      }
      assert forall i :: 0 <= i < |a| ==> (a + b)[i] == a[i];
      assert forall i :: |a| <= i < |a| + |b| ==> (a + b)[i] == b[i - |a|];
    }
  }

  lemma BranchesInOrder(left: nat, path: seq<nat>, x: nat, p: seq<nat>, q: seq<nat>)
    requires left > 0 && 0 < x <= left
    requires p in Extensions(left - x, path + [x]) && q in ExtensionsFrom(left, path, x + 1)
    ensures LexBefore(p, q)
  {
    var tp := ExtensionsSound(left - x, path + [x], p);
    var tq := ExtensionsFromSound(left, path, x + 1, q);
    assert p[|path|] == x && q[|path|] == tq[0];
    assert p[..|path|] == path == q[..|path|];
    assert FirstDifference(p, q, |path|);
  }

  function Pow2(n: nat): nat {
    if n == 0 then 1 else 2 * Pow2(n - 1)
  }

  lemma {:induction false} ExtensionsCount(left: nat, path: seq<nat>)
    ensures |Extensions(left, path)| == if left == 0 then 1 else Pow2(left - 1)
    decreases left, 1, 0
  {
    if left > 0 {
      ExtensionsFromCount(left, path, 1);
    }
  }

  lemma {:induction false} ExtensionsFromCount(left: nat, path: seq<nat>, x: nat)
    requires 0 < x <= left
    ensures |ExtensionsFrom(left, path, x)| == Pow2(left - x)
    decreases left, 0, left + 1 - x
  {
    ExtensionsCount(left - x, path + [x]);
    if x < left {
      ExtensionsFromCount(left, path, x + 1);
    } else {
      assert ExtensionsFrom(left, path, x + 1) == [];
    }
  }

  // ---------- expansion to tiles ----------

  function Scaled(units: seq<nat>, group: nat): (r: seq<int>)
    ensures |r| == |units|
  {
    seq(|units|, i requires 0 <= i < |units| => units[i] * group)
  }

  /** Segment sizes of a composition: whole groups, and for the last part whatever is left. */
  function Expanded(units: seq<nat>, group: nat, tiles: nat): seq<int> {
    if units == [] then []
    else
      var last := |units| - 1;
      var front := Scaled(units[..last], group);
      front + [Min(units[last] * group, tiles - Sum(front))]
  }

  method ScalePart(part: nat, computeSms: nat, groupSize: nat, ghost group: nat) returns (scaled: nat)
    requires group == computeSms * groupSize
    ensures scaled == part * group
  {
    MulAssoc(part, computeSms, groupSize);
    scaled := part * computeSms * groupSize;
  }

  /** `expand_partition_to_cseg`: overwrites the parts one by one. */
  method ExpandPartition(units: seq<nat>, computeSms: nat, groupSize: nat, tiles: nat) returns (gp: seq<int>)
    ensures gp == Expanded(units, computeSms * groupSize, tiles)
  {
    gp := units;
    ghost var group: nat :| group == computeSms * groupSize;
    var acc, i := 0, 0;
    assert Partly(units, group, 0) == units;
    while i < |gp|
      invariant i <= |gp| == |units|
      invariant i < |units| ==> gp == Partly(units, group, i)
      invariant i < |units| ==> acc == Sum(Scaled(units[..i], group))
      invariant i == |units| ==> gp == Expanded(units, group, tiles)
    {
      PartlyStep(units, group, i);
      var scaled := ScalePart(gp[i], computeSms, groupSize, group);
      if i < |gp| - 1 {
        gp := gp[i := scaled];
        acc := acc + scaled;
      } else {
        gp := gp[i := Min(scaled, tiles - acc)];
        LastStep(units, group, tiles, scaled);
      }
      i := i + 1;
    }
  }

  /** The list while the first i parts have been overwritten. */
  ghost function Partly(units: seq<nat>, group: nat, i: nat): seq<int>
    requires i <= |units|
  {
    Scaled(units[..i], group) + units[i..]
  }

  lemma LastStep(units: seq<nat>, group: nat, tiles: nat, scaled: int)
    requires units != [] && scaled == units[|units| - 1] * group
    ensures var i := |units| - 1;
            Partly(units, group, i)[i := Min(scaled, tiles - Sum(Scaled(units[..i], group)))] ==
            Expanded(units, group, tiles)
  {
    var i := |units| - 1;
    var front := Scaled(units[..i], group);
    ReplaceLast(front, units[i], Min(scaled, tiles - Sum(front)));
    assert units[i..] == [units[i]];
  }

  lemma ReplaceLast(front: seq<int>, x: int, y: int)
    ensures (front + [x])[|front| := y] == front + [y]
  {
  }

  lemma PartlyStep(units: seq<nat>, group: nat, i: nat)
    requires i < |units|
    ensures Partly(units, group, i)[i] == units[i]
    ensures Partly(units, group, i)[i := units[i] * group] == Partly(units, group, i + 1)
    ensures Sum(Scaled(units[..i + 1], group)) == Sum(Scaled(units[..i], group)) + units[i] * group
  {
    assert Scaled(units[..i + 1], group) == Scaled(units[..i], group) + [units[i] * group];
    SumAppend(Scaled(units[..i], group), [units[i] * group]);
    assert Sum([units[i] * group]) == units[i] * group + Sum([]);
  }

  lemma {:induction false} SumScaled(units: seq<nat>, group: nat)
    ensures Sum(Scaled(units, group)) == Sum(units) * group
  {
    if units != [] {
      SumScaled(units[1..], group);
      assert Scaled(units, group) == [units[0] * group] + Scaled(units[1..], group);
      assert (units[0] + Sum(units[1..])) * group == units[0] * group + Sum(units[1..]) * group;
    }
  }

  /** Every candidate covers the tiles exactly: expanding any composition of the normalized wave
      count ceil(ceil(tiles / sms) / g) gives positive segment sizes that add up to `tiles`. */
  lemma ExpansionCovers(units: seq<nat>, computeSms: nat, groupSize: nat, tiles: nat)
    requires computeSms > 0 && groupSize > 0
    requires IsComposition(units, CeilDiv(CeilDiv(tiles, computeSms), groupSize))
    ensures var gp := Expanded(units, computeSms * groupSize, tiles);
            (forall i :: 0 <= i < |gp| ==> gp[i] > 0) && Sum(gp) == tiles
  {
    MulPos(computeSms, groupSize);
    CeilDivNested(tiles, computeSms, groupSize);
    ExpansionOfGroups(units, computeSms * groupSize, tiles);
  }

  lemma ExpansionOfGroups(units: seq<nat>, group: nat, tiles: nat)
    requires group > 0 && IsComposition(units, CeilDiv(tiles, group))
    ensures var gp := Expanded(units, group, tiles);
            (forall i :: 0 <= i < |gp| ==> gp[i] > 0) && Sum(gp) == tiles
  {
    var n := CeilDiv(tiles, group);
    CeilDivLeast(tiles, group, n);
    if units != [] {
      var last := |units| - 1;
      var front := Scaled(units[..last], group);
      assert units[..last] + [units[last]] == units;
      SumSnoc(units, last);
      assert units[..last + 1] == units;
      SumScaled(units[..last], group);
      SumAppend(front, [Min(units[last] * group, tiles - Sum(front))]);
      LastSegment(n, Sum(units[..last]), units[last], group, tiles);
      ScaledPositive(units[..last], group);
    }
  }

  lemma ScaledPositive(units: seq<nat>, group: nat)
    requires group > 0 && Positive(units)
    ensures forall i :: 0 <= i < |units| ==> Scaled(units, group)[i] > 0
  {
  }

  /** n groups are just enough, so n - 1 are not, and the last part is cut but never empty. */
  lemma LastSegment(n: nat, before: nat, last: nat, group: nat, tiles: nat)
    requires group > 0 && last > 0 && n == before + last && n == CeilDiv(tiles, group)
    ensures 0 < Min(last * group, tiles - before * group) == tiles - before * group
  {
    CeilDivLeast(tiles, group, n);
    CeilDivLeast(tiles, group, n - 1);
    MulLe(before, n - 1, group);
    assert (before + last) * group == before * group + last * group;
  }
}
