/** From observed completion orders to a tile permutation. */
module SearchHint {
  import opened Sequences

  // ---------- reorder maps ----------

  ghost predicate GoodHint(hint: seq<int>, tileNum: nat) {
    Below(hint, tileNum) && Injective(hint)
  }

  /** p undoes order: order lists the tiles by new position, p gives each tile its new position. */
  ghost predicate Inverse(p: seq<int>, order: seq<int>) {
    && |p| == |order|
    && Below(order, |order|)
    && forall i :: 0 <= i < |order| ==> p[order[i]] == i
  }

  /** Both are then permutations. */
  lemma InversePermutations(p: seq<int>, order: seq<int>)
    requires Inverse(p, order)
    ensures IsPermutation(order) && IsPermutation(p)
    ensures forall t :: 0 <= t < |p| ==> 0 <= p[t] < |p| && order[p[t]] == t
  {
    assert IsPermutation(order) by {
      forall i, j | 0 <= i < j < |order| ensures order[i] != order[j] {
        assert p[order[i]] == i && p[order[j]] == j;
      }
    }
    forall t | 0 <= t < |p| ensures 0 <= p[t] < |p| && order[p[t]] == t {
      var i := PermutationReaches(order, t);
      assert p[order[i]] == i;
    }
  }

  /** Tiles below `upTo` that are not listed in the hint, in increasing order. */
  function Tail(hint: seq<int>, upTo: nat): (r: seq<int>)
    ensures forall t :: t in r <==> 0 <= t < upTo && t !in hint
    ensures Increasing(r)
  {
    if upTo == 0 then []
    else
      var front := Tail(hint, upTo - 1);
      assert forall i :: 0 <= i < |front| ==> front[i] in front;
      if upTo - 1 in hint then front else front + [upTo - 1]
  }

  /** The hint's tiles and the tail together are all tiles. */
  lemma TailCompletes(hint: seq<int>, tileNum: nat)
    requires Below(hint, tileNum)
    ensures |Elements(hint)| + |Tail(hint, tileNum)| == tileNum
  {
    var a, b := Elements(hint), Elements(Tail(hint, tileNum));
    InjectiveSize(Tail(hint, tileNum));
    RangeSize(0, tileNum);
    forall t ensures t in Range(0, tileNum) <==> t in a + b {
      assert t in b <==> t in Tail(hint, tileNum);
      assert t in a <==> t in hint;
    }
    assert a !! b by {
      forall t | t in b ensures t !in a {
        assert t in Tail(hint, tileNum);
      }
    }
    assert Range(0, tileNum) == a + b;
  }

  lemma FullOrderSize(hint: seq<int>, tileNum: nat)
    requires GoodHint(hint, tileNum)
    ensures |hint| + |Tail(hint, tileNum)| == tileNum && IsPermutation(hint + Tail(hint, tileNum))
  {
    var tail := Tail(hint, tileNum);
    TailCompletes(hint, tileNum);
    InjectiveSize(hint);
    assert forall k :: 0 <= k < |tail| ==> tail[k] in tail;
  }

  /** Entry k is not repeated before position i. */
  predicate LastUse(hint: seq<int>, k: nat, i: nat)
    requires k < i <= |hint|
  {
    hint[k] !in hint[k + 1..i]
  }

  lemma LastUseStep(hint: seq<int>, i: nat)
    requires i < |hint|
    ensures forall k: nat :: k < i ==> (LastUse(hint, k, i + 1) <==> LastUse(hint, k, i) && hint[k] != hint[i])
    ensures LastUse(hint, i, i + 1)
  {
  }

  /** What `reorder_indices` leaves for any hint in range: the last position of each hint tile,
      then the other tiles in increasing order. */
  ghost predicate IsReorder(newOrder: seq<int>, hint: seq<int>, tileNum: nat) {
    && |newOrder| == tileNum && Below(hint, tileNum)
    && (forall k: nat :: k < |hint| && LastUse(hint, k, |hint|) ==> newOrder[hint[k]] == k)
    && (forall k :: 0 <= k < |Tail(hint, tileNum)| ==>
          0 <= Tail(hint, tileNum)[k] < tileNum && newOrder[Tail(hint, tileNum)[k]] == |hint| + k)
  }

  /** The tiles that a hint names: Python counts a negative index from the end of the list. */
  function Wrapped(hint: seq<int>, tileNum: nat): (r: seq<int>)
    ensures |r| == |hint|
  {
    seq(|hint|, i requires 0 <= i < |hint| => if hint[i] < 0 then hint[i] + tileNum else hint[i])
  }

  /** What the first loop knows after i hint entries: every tile named so far has its last position. */
  ghost predicate HintPlaced(tiles: seq<int>, newOrder: seq<int>, i: nat) {
    && i <= |tiles| && Below(tiles[..i], |newOrder|)
    && (forall k: nat :: k < i ==> 0 <= tiles[k] < |newOrder|)
    && (forall k: nat :: k < i && LastUse(tiles, k, i) ==> newOrder[tiles[k]] == k)
    && (forall t :: 0 <= t < |newOrder| ==> (t in tiles[..i] <==> newOrder[t] >= 0))
  }

  lemma HintPlacedStep(tiles: seq<int>, newOrder: seq<int>, i: nat)
    requires i < |tiles| && HintPlaced(tiles, newOrder, i) && 0 <= tiles[i] < |newOrder|
    ensures HintPlaced(tiles, newOrder[tiles[i] := i], i + 1)
  {
    assert tiles[..i + 1] == tiles[..i] + [tiles[i]];
    LastUseStep(tiles, i);
  }

  /** The list after the first i writes of the first loop. */
  function Placing(tiles: seq<int>, tileNum: nat, i: nat): (r: seq<int>)
    requires i <= |tiles|
    ensures |r| == tileNum
  {
    if i == 0 then seq(tileNum, t => -1)
    else if 0 <= tiles[i - 1] < tileNum then Placing(tiles, tileNum, i - 1)[tiles[i - 1] := i - 1]
    else Placing(tiles, tileNum, i - 1)
  }

  lemma {:induction false} PlacingPlaces(tiles: seq<int>, tileNum: nat, i: nat)
    requires i <= |tiles| && Below(tiles[..i], tileNum)
    ensures HintPlaced(tiles, Placing(tiles, tileNum, i), i)
  {
    if i > 0 {
      assert Below(tiles[..i - 1], tileNum) by {
        assert tiles[..i - 1] == tiles[..i][..i - 1];
      }
      assert 0 <= tiles[..i][i - 1] < tileNum;
      PlacingPlaces(tiles, tileNum, i - 1);
      HintPlacedStep(tiles, Placing(tiles, tileNum, i - 1), i - 1);
    }
  }

  /** The first loop of `reorder_indices`: list assignment at possibly negative indices. */
  method PlaceHint(tileNum: nat, hint: seq<int>) returns (ok: bool, placed: seq<int>)
    ensures |placed| == tileNum
    ensures ok <==> forall i :: 0 <= i < |hint| ==> 0 <= hint[i] + tileNum && hint[i] < tileNum
    ensures ok ==> placed == Placing(Wrapped(hint, tileNum), tileNum, |hint|)
  {
    ghost var tiles := Wrapped(hint, tileNum);
    placed := seq(tileNum, t => -1);
    var i := 0;
    while i < |hint|
      invariant i <= |hint| && placed == Placing(tiles, tileNum, i)
      invariant forall k :: 0 <= k < i ==> 0 <= hint[k] + tileNum && hint[k] < tileNum
    {
      if hint[i] + tileNum < 0 || hint[i] >= tileNum {
        return false, placed;
      }
      placed := placed[if hint[i] < 0 then hint[i] + tileNum else hint[i] := i];
      i := i + 1;
    }
    ok := true;
  }

  lemma PlacedTiles(tiles: seq<int>, placed: seq<int>)
    requires HintPlaced(tiles, placed, |tiles|)
    ensures Below(tiles, |placed|)
    ensures forall t :: 0 <= t < |placed| ==> (t in tiles <==> placed[t] >= 0)
  {
    assert tiles[..|tiles|] == tiles;
  }

  /** Tail entries do not disturb the hint's. */
  lemma ReorderDone(tiles: seq<int>, placed: seq<int>, newOrder: seq<int>, tileNum: nat)
    requires HintPlaced(tiles, placed, |tiles|) && |placed| == |newOrder| == tileNum
    requires forall t :: 0 <= t < tileNum && t in tiles ==> newOrder[t] == placed[t]
    requires forall k :: 0 <= k < |Tail(tiles, tileNum)| ==>
               0 <= Tail(tiles, tileNum)[k] < tileNum && newOrder[Tail(tiles, tileNum)[k]] == |tiles| + k
    ensures IsReorder(newOrder, tiles, tileNum)
  {
    PlacedTiles(tiles, placed);
    forall k: nat | k < |tiles| && LastUse(tiles, k, |tiles|) ensures newOrder[tiles[k]] == k {
      assert tiles[k] in tiles;
    }
  }

  lemma WrappedInRange(hint: seq<int>, tileNum: nat)
    requires Below(hint, tileNum)
    ensures Wrapped(hint, tileNum) == hint
  {
  }

  lemma WrappedBelow(hint: seq<int>, tileNum: nat)
    requires forall i :: 0 <= i < |hint| ==> 0 <= hint[i] + tileNum && hint[i] < tileNum
    ensures Below(Wrapped(hint, tileNum)[..|hint|], tileNum)
  {
  }

  /** `reorder_indices`: hint tiles first, the rest behind in increasing order.  A number outside
      [-tileNum, tileNum) is an index error. */
  method ReorderIndices(tileNum: nat, hint: seq<int>) returns (ok: bool, newOrder: seq<int>)
    ensures ok <==> forall i :: 0 <= i < |hint| ==> 0 <= hint[i] + tileNum && hint[i] < tileNum
    ensures ok ==> IsReorder(newOrder, Wrapped(hint, tileNum), tileNum)
    ensures Below(hint, tileNum) ==> ok && IsReorder(newOrder, hint, tileNum)
  {
    ok, newOrder := PlaceHint(tileNum, hint);
    if ok {
      ghost var tiles, placed := Wrapped(hint, tileNum), newOrder;
      WrappedBelow(hint, tileNum);
      PlacingPlaces(tiles, tileNum, |hint|);
      PlacedTiles(tiles, placed);
      newOrder := PlaceTail(tileNum, |hint|, tiles, newOrder);
      ReorderDone(tiles, placed, newOrder, tileNum);
    }
    if Below(hint, tileNum) {
      WrappedInRange(hint, tileNum);
    }
  }

  /** The list after the second loop has seen the first `tile` tiles. */
  function TailPlacing(hint: seq<int>, placed: seq<int>, tile: nat): (r: seq<int>)
    requires tile <= |placed|
    ensures |r| == |placed|
    ensures forall t :: 0 <= t < |placed| && (t in hint || t >= tile) ==> r[t] == placed[t]
  {
    if tile == 0 then placed
    else
      var before := TailPlacing(hint, placed, tile - 1);
      if tile - 1 in hint then before else before[tile - 1 := |hint| + |Tail(hint, tile - 1)|]
  }

  lemma {:induction false} TailPlaced(hint: seq<int>, placed: seq<int>, tile: nat, k: nat)
    requires tile <= |placed| && k < |Tail(hint, tile)|
    ensures 0 <= Tail(hint, tile)[k] < tile && TailPlacing(hint, placed, tile)[Tail(hint, tile)[k]] == |hint| + k
  {
    assert Tail(hint, tile)[k] in Tail(hint, tile);
    if k < |Tail(hint, tile - 1)| {
      TailPlaced(hint, placed, tile - 1, k);
    }
  }

  /** The second loop of `reorder_indices`. */
  method PlaceTail(tileNum: nat, size: nat, ghost hint: seq<int>, placed: seq<int>) returns (newOrder: seq<int>)
    requires size == |hint| && |placed| == tileNum && forall t :: 0 <= t < tileNum ==> (t in hint <==> placed[t] >= 0)
    ensures |newOrder| == tileNum
    ensures forall t :: 0 <= t < tileNum && t in hint ==> newOrder[t] == placed[t]
    ensures forall k :: 0 <= k < |Tail(hint, tileNum)| ==>
              0 <= Tail(hint, tileNum)[k] < tileNum && newOrder[Tail(hint, tileNum)[k]] == |hint| + k
  {
    newOrder := placed;
    var pos, tile := size, 0;
    while tile < tileNum
      invariant tile <= tileNum && newOrder == TailPlacing(hint, placed, tile)
      invariant pos == |hint| + |Tail(hint, tile)|
    {
      if newOrder[tile] < 0 {
        newOrder := newOrder[tile := pos];
        pos := pos + 1;
      }
      tile := tile + 1;
    }
    forall k: nat | k < |Tail(hint, tileNum)|
      ensures 0 <= Tail(hint, tileNum)[k] < tileNum && newOrder[Tail(hint, tileNum)[k]] == |hint| + k
    {
      TailPlaced(hint, placed, tileNum, k);
    }
  }

  /** The result is a permutation exactly when the hint repeats no tile; it is then the inverse of
      hint tiles followed by the tail. */
  lemma ReorderIsPermutation(newOrder: seq<int>, hint: seq<int>, tileNum: nat)
    requires IsReorder(newOrder, hint, tileNum)
    ensures IsPermutation(newOrder) <==> Injective(hint)
    ensures Injective(hint) ==> Inverse(newOrder, hint + Tail(hint, tileNum))
  {
    if Injective(hint) {
      FullOrderSize(hint, tileNum);
      assert forall k: nat :: k < |hint| ==> LastUse(hint, k, |hint|);
      InversePermutations(newOrder, hint + Tail(hint, tileNum));
    } else {
      TailCompletes(hint, tileNum);
      RepeatShrinks(hint);
      var tail := Tail(hint, tileNum);
      if tail != [] {
        assert newOrder[tail[|tail| - 1]] == |hint| + |tail| - 1;
      } else {
        assert LastUse(hint, |hint| - 1, |hint|);
        assert newOrder[hint[|hint| - 1]] == |hint| - 1;
      }
    }
  }

  lemma {:induction false} RepeatShrinks(s: seq<int>)
    ensures |Elements(s)| <= |s|
    ensures !Injective(s) ==> |Elements(s)| < |s|
  {
    if s != [] {
      var k := |s| - 1;
      RepeatShrinks(s[..k]);
      ElementsSnoc(s);
      if Injective(s[..k]) && s[k] !in Elements(s[..k]) {
        assert forall i :: 0 <= i < k ==> s[i] == s[..k][i] && s[i] in Elements(s[..k]);
        assert Injective(s);
      }
    } else {
      assert Elements(s) == {};
    }
  }

  lemma ElementsSnoc(s: seq<int>)
    requires s != []
    ensures Elements(s) == Elements(s[..|s| - 1]) + {s[|s| - 1]}
  {
  }

  /** First occurrences, in order. */
  function Dedup(s: seq<int>): (r: seq<int>)
    ensures Injective(r)
    ensures forall x :: x in r <==> x in s
  {
    if s == [] then []
    else
      var k := |s| - 1;
      var front := Dedup(s[..k]);
      assert s == s[..k] + [s[k]];
      if s[k] in front then front else front + [s[k]]
  }

  /** Place i is the first that names x. */
  predicate FirstNames(s: seq<int>, i: nat, x: int) {
    i < |s| && s[i] == x && x !in s[..i]
  }

  lemma FirstNamesLonger(s: seq<int>, k: nat, i: nat, x: int)
    requires k <= |s| && FirstNames(s[..k], i, x)
    ensures FirstNames(s, i, x)
  {
    assert s[..k][..i] == s[..i];
  }

  /** Each entry is there for the first place that names it, and these places come in order. */
  lemma {:induction false} DedupInOrder(s: seq<int>) returns (at: seq<nat>)
    ensures |at| == |Dedup(s)| && Increasing(at)
    ensures forall p :: 0 <= p < |at| ==> FirstNames(s, at[p], Dedup(s)[p])
  {
    at := [];
    if s != [] {
      var k := |s| - 1;
      var front := DedupInOrder(s[..k]);
      forall p | 0 <= p < |front| ensures front[p] < k && FirstNames(s, front[p], Dedup(s[..k])[p]) {
        FirstNamesLonger(s, k, front[p], Dedup(s[..k])[p]);
      }
      at := front;
      if s[k] !in Dedup(s[..k]) {
        assert FirstNames(s, k, s[k]);
        at := front + [k];
      }
    }
  }

  lemma {:induction false} DedupInjective(s: seq<int>)
    requires Injective(s)
    ensures Dedup(s) == s
  {
    if s != [] {
      var k := |s| - 1;
      DedupInjective(s[..k]);
      assert s == s[..k] + [s[k]];
    }
  }

  /** `build_full_order_and_reorder_map`: rejects a bad tile, drops repeats, and returns the order
      together with its inverse. */
  method BuildFullOrderAndReorderMap(tileNum: nat, hint: seq<int>)
    returns (ok: bool, fullTileOrder: seq<int>, reorderMap: seq<int>, unstableTail: seq<int>)
    ensures ok <==> Below(hint, tileNum)
    ensures ok ==> fullTileOrder == Dedup(hint) + Tail(Dedup(hint), tileNum)
    ensures ok ==> |fullTileOrder| == tileNum && Inverse(reorderMap, fullTileOrder)
    ensures ok ==> unstableTail == Tail(Dedup(hint), tileNum)
  {
    var used := seq(tileNum, t => false);
    var stablePrefix: seq<int> := [];
    fullTileOrder, reorderMap, unstableTail := [], [], [];
    var i := 0;
    while i < |hint|
      invariant i <= |hint| && |used| == tileNum
      invariant Below(hint[..i], tileNum) && stablePrefix == Dedup(hint[..i])
      invariant forall t :: 0 <= t < tileNum ==> (used[t] <==> t in stablePrefix)
    {
      var x := hint[i];
      if x < 0 || x >= tileNum {
        return false, [], [], [];
      }
      assert hint[..i + 1][..i] == hint[..i];
      if !used[x] {
        stablePrefix := stablePrefix + [x];
        used := used[x := true];
      }
      i := i + 1;
    }
    assert hint[..i] == hint;
    unstableTail := UnusedTiles(used, stablePrefix);
    fullTileOrder := stablePrefix + unstableTail;
    DedupBelow(hint, tileNum);
    FullOrderSize(stablePrefix, tileNum);
    reorderMap := InvertOrder(fullTileOrder);
    ok := true;
  }

  lemma DedupBelow(hint: seq<int>, tileNum: nat)
    requires Below(hint, tileNum)
    ensures GoodHint(Dedup(hint), tileNum)
  {
  }

  method UnusedTiles(used: seq<bool>, prefix: seq<int>) returns (r: seq<int>)
    requires forall t :: 0 <= t < |used| ==> (used[t] <==> t in prefix)
    ensures r == Tail(prefix, |used|)
  {
    r := [];
    var x := 0;
    while x < |used|
      invariant x <= |used| && r == Tail(prefix, x)
    {
      if !used[x] {
        r := r + [x];
      }
      x := x + 1;
    }
  }

  method InvertOrder(order: seq<int>) returns (p: seq<int>)
    requires IsPermutation(order)
    ensures Inverse(p, order)
  {
    p := seq(|order|, t => -1);
    var i := 0;
    while i < |order|
      invariant i <= |order| == |p|
      invariant forall k :: 0 <= k < i ==> p[order[k]] == k
    {
      p := p[order[i] := i];
      i := i + 1;
    }
  }

  /** For a hint without repeats the two routines agree: reorder_indices is the reorder map,
      the inverse of the full tile order. */
  lemma ReorderRoutinesAgree(tileNum: nat, hint: seq<int>, newOrder: seq<int>, reorderMap: seq<int>)
    requires GoodHint(hint, tileNum)
    requires Inverse(newOrder, hint + Tail(hint, tileNum))
    requires Inverse(reorderMap, Dedup(hint) + Tail(Dedup(hint), tileNum))
    ensures newOrder == reorderMap
  {
    DedupInjective(hint);
    var order := hint + Tail(hint, tileNum);
    InversePermutations(newOrder, order);
    InversePermutations(reorderMap, order);
    forall t | 0 <= t < |newOrder| ensures newOrder[t] == reorderMap[t] {
      var i := PermutationReaches(order, t);
      assert newOrder[order[i]] == i && reorderMap[order[i]] == i;
    }
  }
}
