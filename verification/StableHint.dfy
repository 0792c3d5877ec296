/**
 `compute_stable_hint_from_rounds`: which tiles land in the same window of the completion order
 in every sample of every confirmation round, and how many waves of them every window has.
 */
module StableHint {
  import opened Arith
  import opened Sequences

  /** rounds[r][i][t]: completion position of tile t in sample i of round r. */
  type Rounds = seq<seq<seq<int>>>

  ghost predicate WellShaped(rounds: Rounds, tileNum: nat) {
    forall r, i :: 0 <= r < |rounds| && 0 <= i < |rounds[r]| ==> |rounds[r][i]| == tileNum
  }

  /** Tile t lands in [lo, hi) in every sample of every round. */
  ghost predicate Lands(rounds: Rounds, t: nat, lo: int, hi: int) {
    forall r, i :: 0 <= r < |rounds| && 0 <= i < |rounds[r]| && t < |rounds[r][i]| ==> lo <= rounds[r][i][t] < hi
  }

  /** Samples of one round in which tile t lands in [lo, hi). */
  function CountInWindow(samples: seq<seq<int>>, t: nat, lo: int, hi: int): nat
    requires forall i :: 0 <= i < |samples| ==> t < |samples[i]|
  {
    if samples == [] then 0
    else CountInWindow(samples[1..], t, lo, hi) + if lo <= samples[0][t] < hi then 1 else 0
  }

  lemma {:induction false} CountIsAll(samples: seq<seq<int>>, t: nat, lo: int, hi: int)
    requires forall i :: 0 <= i < |samples| ==> t < |samples[i]|
    ensures CountInWindow(samples, t, lo, hi) <= |samples|
    ensures CountInWindow(samples, t, lo, hi) == |samples| <==>
            forall i :: 0 <= i < |samples| ==> lo <= samples[i][t] < hi
  {
    if samples != [] {
      CountIsAll(samples[1..], t, lo, hi);
      assert forall i :: 0 < i < |samples| ==> samples[i] == samples[1..][i - 1];
      assert forall i :: 0 <= i < |samples[1..]| ==> samples[1..][i] == samples[i + 1];
    }
  }

  /** The mask of one window: the conjunction, over the rounds, of "in the window in every sample". */
  method StableMask(rounds: Rounds, tileNum: nat, lo: int, hi: int) returns (mask: seq<bool>)
    requires WellShaped(rounds, tileNum)
    ensures |mask| == tileNum && forall t: nat :: t < tileNum ==> (mask[t] <==> Lands(rounds, t, lo, hi))
  {
    mask := seq(tileNum, t => true);
    var r := 0;
    while r < |rounds|
      invariant r <= |rounds| && |mask| == tileNum
      invariant forall t: nat :: t < tileNum ==> (mask[t] <==> Lands(rounds[..r], t, lo, hi))
    {
      var samples := rounds[r];
      var before := mask;
      mask := seq(tileNum, t requires 0 <= t < tileNum =>
        before[t] && CountInWindow(samples, t, lo, hi) == |samples|);
      forall t: nat | t < tileNum ensures mask[t] <==> Lands(rounds[..r + 1], t, lo, hi) {
        CountIsAll(samples, t, lo, hi);
        LandsSnoc(rounds, r, tileNum, t, lo, hi);
      }
      r := r + 1;
    }
    assert rounds[..r] == rounds;
  }

  lemma LandsSnoc(rounds: Rounds, r: nat, tileNum: nat, t: nat, lo: int, hi: int)
    requires WellShaped(rounds, tileNum) && r < |rounds| && t < tileNum
    ensures Lands(rounds[..r + 1], t, lo, hi) <==>
            Lands(rounds[..r], t, lo, hi) && forall i :: 0 <= i < |rounds[r]| ==> lo <= rounds[r][i][t] < hi
  {
  }

  /** The tiles of a mask, in increasing order (`torch.where`). */
  function Where(mask: seq<bool>): (r: seq<nat>)
    ensures forall t: nat :: t in r <==> t < |mask| && mask[t]
    ensures Increasing(r)
  {
    if mask == [] then []
    else
      var k := |mask| - 1;
      assert forall t :: 0 <= t < k ==> mask[..k][t] == mask[t];
      var front := Where(mask[..k]);
      assert forall i :: 0 <= i < |front| ==> front[i] in front;
      if mask[k] then front + [k] else front
  }

  function WindowLow(w: nat, wSize: nat): nat { w * wSize }
  function WindowHigh(w: nat, wSize: nat, tileNum: nat): int { Min((w + 1) * wSize, tileNum) }

  ghost predicate LandsInWindow(rounds: Rounds, t: nat, w: nat, wSize: nat, tileNum: nat) {
    Lands(rounds, t, WindowLow(w, wSize), WindowHigh(w, wSize, tileNum))
  }

  ghost predicate FullWindow(w: nat, wSize: nat, tileNum: nat) {
    WindowHigh(w, wSize, tileNum) - WindowLow(w, wSize) == wSize
  }

  /** Window w is the positions from w * wSize to (w + 1) * wSize that there are; it is full if they all are. */
  lemma WindowIs(rounds: Rounds, t: nat, w: nat, wSize: nat, tileNum: nat)
    requires WellShaped(rounds, tileNum) && t < tileNum
    ensures LandsInWindow(rounds, t, w, wSize, tileNum) <==>
            forall r, i :: 0 <= r < |rounds| && 0 <= i < |rounds[r]| ==>
              w * wSize <= rounds[r][i][t] && rounds[r][i][t] < (w + 1) * wSize && rounds[r][i][t] < tileNum
    ensures FullWindow(w, wSize, tileNum) <==> (w + 1) * wSize <= tileNum
  {
    MulSucc(w, wSize);
  }

  /** stable[w] lists exactly the tiles that always land in window w, in increasing order. */
  ghost predicate StableLists(rounds: Rounds, tileNum: nat, wSize: nat, stable: seq<seq<nat>>) {
    forall w: nat :: w < |stable| ==>
      && Increasing(stable[w])
      && forall t: nat :: t in stable[w] <==>
           t < tileNum && LandsInWindow(rounds, t, w, wSize, tileNum)
  }

  /** The effective group: how many waves every full window can fill with stable tiles. */
  ghost predicate IsEffectiveGroup(g: int, stable: seq<seq<nat>>, tileNum: nat, wSize: nat, computeSms: nat,
                                  nominal: int)
    requires computeSms > 0
  {
    if exists w: nat :: w < |stable| && FullWindow(w, wSize, tileNum) then
      && g <= nominal
      && (forall w: nat :: w < |stable| && FullWindow(w, wSize, tileNum) ==> g <= |stable[w]| / computeSms)
      && (g == nominal || exists w: nat :: w < |stable| && FullWindow(w, wSize, tileNum) && g == |stable[w]| / computeSms)
    else
      g == Min(nominal, CeilDiv(tileNum, computeSms))
  }

  /** First part: the windows, their stable tiles and the effective group. */
  method MeasureWindows(rounds: Rounds, tileNum: nat, wSize: nat, computeSms: nat, nominal: int)
    returns (stable: seq<seq<nat>>, effective: int)
    requires WellShaped(rounds, tileNum) && wSize > 0 && computeSms > 0
    ensures |stable| == CeilDiv(tileNum, wSize)
    ensures StableLists(rounds, tileNum, wSize, stable)
    ensures IsEffectiveGroup(effective, stable, tileNum, wSize, computeSms, nominal)
  {
    var waveNum := CeilDiv(tileNum, wSize);
    stable := [];
    effective := nominal;
    var fullWindowSeen := false;
    var w := 0;
    while w < waveNum
      invariant w <= waveNum && |stable| == w
      invariant StableLists(rounds, tileNum, wSize, stable)
      invariant fullWindowSeen <==> exists v: nat :: v < w && FullWindow(v, wSize, tileNum)
      invariant fullWindowSeen ==> IsEffectiveGroup(effective, stable, tileNum, wSize, computeSms, nominal)
      invariant !fullWindowSeen ==> effective == nominal
    {
      var lo, hi := WindowLow(w, wSize), WindowHigh(w, wSize, tileNum);
      var mask := StableMask(rounds, tileNum, lo, hi);
      var stableTiles := Where(mask);
      var windowEffectiveGroup := Min(|stableTiles| / computeSms, nominal);
      ghost var before := stable;
      stable := stable + [stableTiles];
      assert forall v: nat :: v < w ==> stable[v] == before[v];
      if hi - lo == wSize {
        assert FullWindow(w, wSize, tileNum);
        fullWindowSeen := true;
        effective := Min(effective, windowEffectiveGroup);
      }
      w := w + 1;
    }
    if !fullWindowSeen {
      effective := Min(nominal, CeilDiv(tileNum, computeSms));
    }
  }

  /** Appends the tiles that the hint does not have yet. */
  function AppendNew(hint: seq<nat>, tiles: seq<nat>): (r: seq<nat>)
    ensures forall t :: t in r <==> t in hint || t in tiles
    ensures hint <= r
    ensures Injective(hint) ==> Injective(r)
  {
    if tiles == [] then hint
    else
      var k := |tiles| - 1;
      var front := AppendNew(hint, tiles[..k]);
      assert tiles == tiles[..k] + [tiles[k]];
      if tiles[k] in front then front else front + [tiles[k]]
  }

  /** The hint after the windows in `stable`. */
  function HintOf(stable: seq<seq<nat>>): (r: seq<nat>)
    ensures Injective(r)
    ensures forall t :: t in r <==> exists w :: 0 <= w < |stable| && t in stable[w]
  {
    if stable == [] then []
    else
      var k := |stable| - 1;
      assert stable == stable[..k] + [stable[k]];
      AppendNew(HintOf(stable[..k]), stable[k])
  }

  /** Second part: the hint, window by window, each tile once. */
  method CollectHint(stable: seq<seq<nat>>, tileNum: nat) returns (hint: seq<nat>)
    requires forall w :: 0 <= w < |stable| ==> forall t :: t in stable[w] ==> t < tileNum
    ensures hint == HintOf(stable)
  {
    hint := [];
    var used := seq(tileNum, t => false);
    var w := 0;
    while w < |stable|
      invariant w <= |stable| && |used| == tileNum && hint == HintOf(stable[..w])
      invariant forall t: nat :: t < tileNum ==> (used[t] <==> t in hint)
    {
      hint, used := CollectWindow(stable[w], tileNum, hint, used);
      assert stable[..w + 1][..w] == stable[..w];
      w := w + 1;
    }
    assert stable[..w] == stable;
  }

  /** One window's tiles, behind the hint so far. */
  method CollectWindow(stableTiles: seq<nat>, tileNum: nat, before: seq<nat>, usedBefore: seq<bool>)
    returns (hint: seq<nat>, used: seq<bool>)
    requires |usedBefore| == tileNum && forall t :: t in stableTiles ==> t < tileNum
    requires forall t: nat :: t < tileNum ==> (usedBefore[t] <==> t in before)
    ensures hint == AppendNew(before, stableTiles)
    ensures |used| == tileNum && forall t: nat :: t < tileNum ==> (used[t] <==> t in hint)
  {
    hint, used := before, usedBefore;
    var k := 0;
    while k < |stableTiles|
      invariant k <= |stableTiles| && |used| == tileNum
      invariant hint == AppendNew(before, stableTiles[..k])
      invariant forall t: nat :: t < tileNum ==> (used[t] <==> t in hint)
    {
      var tile := stableTiles[k];
      assert tile in stableTiles;
      assert stableTiles[..k + 1][..k] == stableTiles[..k];
      if !used[tile] {
        hint := hint + [tile];
        used := used[tile := true];
      }
      k := k + 1;
    }
    assert stableTiles[..k] == stableTiles;
  }

  /** The whole routine.  It needs at least one round; it accepts exactly when the effective group
      reaches the required minimum. */
  method ComputeStableHintFromRounds(rounds: Rounds, tileNum: nat, wSize: nat, computeSms: nat,
                                     nominal: int, minEffective: int)
    returns (error: bool, ok: bool, hint: seq<nat>, effective: int, ghost stable: seq<seq<nat>>)
    requires WellShaped(rounds, tileNum) && wSize > 0 && computeSms > 0
    ensures error <==> rounds == []
    ensures !error ==> |stable| == CeilDiv(tileNum, wSize) && StableLists(rounds, tileNum, wSize, stable)
    ensures !error ==> IsEffectiveGroup(effective, stable, tileNum, wSize, computeSms, nominal)
    ensures !error ==> (ok <==> effective >= minEffective)
    ensures !error ==> hint == if ok then HintOf(stable) else []
  {
    error, ok, hint, effective, stable := false, false, [], 0, [];
    if rounds == [] {
      return true, false, [], 0, [];
    }
    var lists;
    lists, effective := MeasureWindows(rounds, tileNum, wSize, computeSms, nominal);
    stable := lists;
    if effective < minEffective {
      return;
    }
    assert forall w: nat :: w < |lists| ==> forall t :: t in lists[w] ==> t < tileNum;
    hint := CollectHint(lists, tileNum);
    ok := true;
  }

  // ---------- what the accepted hint promises ----------

  /** The hint is a duplicate-free list of exactly the tiles that always land in one window. */
  lemma HintTiles(rounds: Rounds, tileNum: nat, wSize: nat, stable: seq<seq<nat>>, t: nat)
    requires StableLists(rounds, tileNum, wSize, stable)
    ensures Injective(HintOf(stable))
    ensures t in HintOf(stable) <==>
            t < tileNum && (exists w: nat :: w < |stable| && LandsInWindow(rounds, t, w, wSize, tileNum))
  {
    if t in HintOf(stable) {
      var w :| 0 <= w < |stable| && t in stable[w];
      assert LandsInWindow(rounds, t, w, wSize, tileNum);
    }
    if w: nat :| w < |stable| && t < tileNum && LandsInWindow(rounds, t, w, wSize, tileNum) {
      assert t in stable[w];
    }
  }

  /** No tile is listed for two windows. */
  ghost predicate Disjoint(stable: seq<seq<nat>>) {
    forall w: nat, v: nat, t :: w < v < |stable| && t in stable[w] ==> t !in stable[v]
  }

  lemma LastWindow(stable: seq<seq<nat>>)
    requires Disjoint(stable) && stable != [] && Injective(stable[|stable| - 1])
    ensures HintOf(stable) == HintOf(stable[..|stable| - 1]) + stable[|stable| - 1]
  {
    var k := |stable| - 1;
    forall t | t in stable[k] ensures t !in HintOf(stable[..k]) {
      if w :| 0 <= w < k && t in stable[..k][w] {
        assert false;
      }
    }
    AppendNewIs(HintOf(stable[..k]), stable[k]);
  }

  /** Place p of the hint is place j of window w. */
  ghost predicate PlaceInWindow(stable: seq<seq<nat>>, p: nat, w: nat, j: nat) {
    p < |HintOf(stable)| && w < |stable| && j < |stable[w]| && HintOf(stable)[p] == stable[w][j]
  }

  /** The window of a place, and where a later place can be. */
  lemma {:induction false} PlacesInOrder(stable: seq<seq<nat>>, p: nat, q: nat) returns (w: nat, i: nat, v: nat, j: nat)
    requires Disjoint(stable) && forall w :: 0 <= w < |stable| ==> Increasing(stable[w])
    requires p < q < |HintOf(stable)|
    ensures PlaceInWindow(stable, p, w, i) && PlaceInWindow(stable, q, v, j)
    ensures w < v || (w == v && i < j)
    decreases |stable|
  {
    var k := |stable| - 1;
    var front := HintOf(stable[..k]);
    LastWindow(stable);
    if q < |front| {
      assert Disjoint(stable[..k]);
      w, i, v, j := PlacesInOrder(stable[..k], p, q);
    } else {
      v, j := k, q - |front|;
      if p < |front| {
        w, i := PlaceOf(stable, p);
      } else {
        w, i := k, p - |front|;
      }
    }
  }

  lemma PlaceOf(stable: seq<seq<nat>>, p: nat) returns (w: nat, i: nat)
    requires stable != [] && Disjoint(stable) && Injective(stable[|stable| - 1]) && p < |HintOf(stable[..|stable| - 1])|
    ensures PlaceInWindow(stable, p, w, i) && w < |stable| - 1
  {
    var k := |stable| - 1;
    LastWindow(stable);
    var t := HintOf(stable[..k])[p];
    assert t in HintOf(stable[..k]);
    w :| w < k && t in stable[..k][w];
    i :| i < |stable[w]| && stable[w][i] == t;
  }

  lemma ListsDisjoint(rounds: Rounds, tileNum: nat, wSize: nat, stable: seq<seq<nat>>, r: nat, i: nat)
    requires WellShaped(rounds, tileNum) && StableLists(rounds, tileNum, wSize, stable)
    requires r < |rounds| && i < |rounds[r]|
    ensures Disjoint(stable)
  {
    forall w: nat, v: nat, t | w < v < |stable| && t in stable[w] ensures t !in stable[v] {
      WindowsApart(rounds, tileNum, wSize, w, v, t, r, i);
    }
  }

  /** With a sample, the hint's order is window by window, and by tile number inside a window. */
  lemma HintInOrder(rounds: Rounds, tileNum: nat, wSize: nat, stable: seq<seq<nat>>, r: nat, i: nat, p: nat, q: nat)
    returns (w: nat, v: nat)
    requires WellShaped(rounds, tileNum) && StableLists(rounds, tileNum, wSize, stable)
    requires r < |rounds| && i < |rounds[r]| && p < q < |HintOf(stable)|
    ensures w < |stable| && v < |stable| && HintOf(stable)[p] in stable[w] && HintOf(stable)[q] in stable[v]
    ensures w < v || (w == v && HintOf(stable)[p] < HintOf(stable)[q])
  {
    ListsDisjoint(rounds, tileNum, wSize, stable, r, i);
    var a, b;
    w, a, v, b := PlacesInOrder(stable, p, q);
  }

  lemma {:induction false} AppendNewIs(hint: seq<nat>, tiles: seq<nat>)
    requires Injective(tiles) && forall t :: t in tiles ==> t !in hint
    ensures AppendNew(hint, tiles) == hint + tiles
  {
    if tiles != [] {
      var k := |tiles| - 1;
      assert tiles == tiles[..k] + [tiles[k]];
      assert forall t :: t in tiles[..k] ==> t in tiles;
      AppendNewIs(hint, tiles[..k]);
      assert tiles[k] in tiles && tiles[k] !in tiles[..k];
    }
  }

  /** Every full window has at least effective * computeSms stable tiles. */
  lemma FullWindowsAreStable(stable: seq<seq<nat>>, tileNum: nat, wSize: nat, computeSms: nat, nominal: int, g: nat,
                             w: nat)
    requires computeSms > 0 && IsEffectiveGroup(g, stable, tileNum, wSize, computeSms, nominal)
    requires w < |stable| && FullWindow(w, wSize, tileNum)
    ensures g * computeSms <= |stable[w]|
  {
    DivBounds(|stable[w]|, computeSms);
    MulLe(g, |stable[w]| / computeSms, computeSms);
  }

  lemma {:induction false} HintPrefix(stable: seq<seq<nat>>, x: nat)
    requires x <= |stable|
    ensures HintOf(stable[..x]) <= HintOf(stable)
    decreases |stable|
  {
    if x < |stable| {
      var k := |stable| - 1;
      assert stable[..k][..x] == stable[..x];
      HintPrefix(stable[..k], x);
    } else {
      assert stable[..x] == stable;
    }
  }

  /** With at least one sample, a tile cannot always land in two different windows. */
  lemma WindowsApart(rounds: Rounds, tileNum: nat, wSize: nat, w: nat, v: nat, t: nat, r: nat, i: nat)
    requires WellShaped(rounds, tileNum) && t < tileNum && w < v
    requires r < |rounds| && i < |rounds[r]|
    requires LandsInWindow(rounds, t, w, wSize, tileNum)
    ensures !LandsInWindow(rounds, t, v, wSize, tileNum)
  {
    MulLe(w + 1, v, wSize);
    assert rounds[r][i][t] < (w + 1) * wSize;
  }

  /** Window k lists no tile that an earlier window lists. */
  lemma WindowIsNew(rounds: Rounds, tileNum: nat, wSize: nat, stable: seq<seq<nat>>, k: nat, t: nat, r: nat, i: nat)
    requires WellShaped(rounds, tileNum) && StableLists(rounds, tileNum, wSize, stable)
    requires r < |rounds| && i < |rounds[r]|
    requires k < |stable| && t in stable[k]
    ensures t !in HintOf(stable[..k])
  {
    if t in HintOf(stable[..k]) {
      var w: nat :| w < k && t in stable[..k][w];
      assert t in stable[w];
      WindowsApart(rounds, tileNum, wSize, w, k, t, r, i);
    }
  }

  /** Each of the first x windows has at least `least` stable tiles. */
  ghost predicate EachAtLeast(stable: seq<seq<nat>>, x: nat, least: nat) {
    forall w: nat :: w < x && w < |stable| ==> least <= |stable[w]|
  }

  lemma ProductGrows(k: nat, least: nat, size: nat, next: nat)
    requires k * least <= size && size + least <= next
    ensures (k + 1) * least <= next
  {
  }

  /** One more window adds all its tiles to the hint. */
  lemma HintStep(rounds: Rounds, tileNum: nat, wSize: nat, stable: seq<seq<nat>>, k: nat, r: nat, i: nat)
    requires WellShaped(rounds, tileNum) && StableLists(rounds, tileNum, wSize, stable)
    requires r < |rounds| && i < |rounds[r]|
    requires k < |stable|
    ensures |HintOf(stable[..k + 1])| == |HintOf(stable[..k])| + |stable[k]|
  {
    assert stable[..k + 1][..k] == stable[..k] && stable[..k + 1][k] == stable[k];
    forall t | t in stable[k] ensures t !in HintOf(stable[..k]) {
      WindowIsNew(rounds, tileNum, wSize, stable, k, t, r, i);
    }
    AppendNewIs(HintOf(stable[..k]), stable[k]);
  }

  /** After x windows of at least `least` stable tiles the hint has at least x * least tiles. */
  lemma {:induction false} HintGrows(rounds: Rounds, tileNum: nat, wSize: nat, stable: seq<seq<nat>>, least: nat,
                                  x: nat, r: nat, i: nat)
    requires WellShaped(rounds, tileNum) && StableLists(rounds, tileNum, wSize, stable) && x <= |stable|
    requires r < |rounds| && i < |rounds[r]|
    requires EachAtLeast(stable, x, least)
    ensures x * least <= |HintOf(stable[..x])|
    decreases x
  {
    if x > 0 {
      var k := x - 1;
      HintGrows(rounds, tileNum, wSize, stable, least, k, r, i);
      HintStep(rounds, tileNum, wSize, stable, k, r, i);
      ProductGrows(k, least, |HintOf(stable[..k])|, |HintOf(stable[..x])|);
    }
  }

  lemma WindowIsFull(tileNum: nat, wSize: nat, x: nat, w: nat)
    requires wSize > 0 && x * wSize <= tileNum && w < x
    ensures FullWindow(w, wSize, tileNum)
  {
  }

  lemma WindowsExist(tileNum: nat, wSize: nat, x: nat)
    requires wSize > 0 && x * wSize <= tileNum
    ensures x <= CeilDiv(tileNum, wSize)
  {
  }

  /** A tile that the first x windows list always finishes among the first x * wSize tiles. */
  lemma ListedEarly(rounds: Rounds, tileNum: nat, wSize: nat, stable: seq<seq<nat>>, x: nat, t: nat, r: nat, i: nat)
    requires WellShaped(rounds, tileNum) && StableLists(rounds, tileNum, wSize, stable) && x <= |stable|
    requires r < |rounds| && i < |rounds[r]|
    requires t in HintOf(stable[..x])
    ensures t < tileNum && 0 <= rounds[r][i][t] < x * wSize
  {
    var w: nat :| w < x && t in stable[..x][w];
    assert t in stable[w];
    assert LandsInWindow(rounds, t, w, wSize, tileNum);
    MulLe(w + 1, x, wSize);
    MulNonneg(w, wSize);
  }

  lemma FirstWindowsAreStable(tileNum: nat, wSize: nat, computeSms: nat, nominal: int, stable: seq<seq<nat>>, g: nat,
                              x: nat)
    requires computeSms > 0 && wSize > 0 && x * wSize <= tileNum && x <= |stable|
    requires IsEffectiveGroup(g, stable, tileNum, wSize, computeSms, nominal)
    ensures EachAtLeast(stable, x, g * computeSms)
  {
    forall w: nat | w < x ensures g * computeSms <= |stable[w]| {
      WindowIsFull(tileNum, wSize, x, w);
      FullWindowsAreStable(stable, tileNum, wSize, computeSms, nominal, g, w);
    }
  }

  lemma EarlyInHint(rounds: Rounds, tileNum: nat, wSize: nat, stable: seq<seq<nat>>, least: nat, x: nat, p: nat,
                    r: nat, i: nat)
    requires WellShaped(rounds, tileNum) && StableLists(rounds, tileNum, wSize, stable) && x <= |stable|
    requires r < |rounds| && i < |rounds[r]|
    requires EachAtLeast(stable, x, least)
    requires p < |HintOf(stable)| && p < x * least
    ensures HintOf(stable)[p] < tileNum && 0 <= rounds[r][i][HintOf(stable)[p]] < x * wSize
  {
    HintGrows(rounds, tileNum, wSize, stable, least, x, r, i);
    HintPrefix(stable, x);
    ListedEarly(rounds, tileNum, wSize, stable, x, HintOf(stable[..x])[p], r, i);
  }

  /** Why segments can be cut in multiples of the effective group: the first x * g * computeSms
      tiles of the hint all finished within the first x windows, in every sample of every round. */
  lemma EarlyTilesFinishEarly(rounds: Rounds, tileNum: nat, wSize: nat, computeSms: nat, nominal: int,
                              stable: seq<seq<nat>>, g: nat, least: nat, x: nat, p: nat, r: nat, i: nat)
    requires WellShaped(rounds, tileNum) && computeSms > 0 && wSize > 0 && least == g * computeSms
    requires |stable| == CeilDiv(tileNum, wSize) && StableLists(rounds, tileNum, wSize, stable)
    requires IsEffectiveGroup(g, stable, tileNum, wSize, computeSms, nominal)
    requires x * wSize <= tileNum
    requires p < |HintOf(stable)| && p < x * least
    requires r < |rounds| && i < |rounds[r]|
    ensures HintOf(stable)[p] < tileNum && 0 <= rounds[r][i][HintOf(stable)[p]] < x * wSize
  {
    WindowsExist(tileNum, wSize, x);
    FirstWindowsAreStable(tileNum, wSize, computeSms, nominal, stable, g, x);
    EarlyInHint(rounds, tileNum, wSize, stable, least, x, p, r, i);
  }
}
