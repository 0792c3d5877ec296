/**
 One collective on all ranks: every rank puts its tensor into its own pool, the library works on the
 slots as it finds them, and every rank's view reads the result.
 */
module SlotPoolNode {
  import opened Arith
  import opened SlotPool

  datatype Kind = Gather | Reduce

  /** Where rank q puts its tensor of `size` elements. */
  function Offset(kind: Kind, q: nat, size: nat): nat {
    MulNonneg(q, size);
    if kind.Gather? then q * size else 0
  }

  /** Elements of a slot that the collective uses. */
  function Extent(kind: Kind, world: nat, size: nat): nat {
    MulNonneg(world, size);
    if kind.Gather? then world * size else size
  }

  /** What every rank is to read: the tensors in rank order, or their elementwise sum. */
  function Expected(kind: Kind, inputs: seq<seq<int>>, size: nat): seq<int>
    requires forall q :: 0 <= q < |inputs| ==> |inputs[q]| == size
  {
    if kind.Gather? then Concat(inputs) else Reduced(inputs, size)
  }

  // ---------- what the ranks' copies and the library call add up to ----------

  ghost predicate StagedAt(slot: seq<int>, offset: nat, input: seq<int>) {
    offset + |input| <= |slot| && slot[offset..][..|input|] == input
  }

  /** Every rank's tensor stands in its slot at that rank's place. */
  ghost predicate AllStaged(kind: Kind, slots: seq<seq<int>>, inputs: seq<seq<int>>, size: nat) {
    && |slots| == |inputs|
    && (forall q :: 0 <= q < |inputs| ==> |inputs[q]| == size && Extent(kind, |inputs|, size) <= |slots[q]|)
    && forall q: nat :: q < |inputs| ==> StagedAt(slots[q], Offset(kind, q, size), inputs[q])
  }

  /** The library gathers exactly the tensors, in rank order. */
  lemma GatherDelivers(slots: seq<seq<int>>, inputs: seq<seq<int>>, size: nat, total: nat)
    requires AllStaged(Gather, slots, inputs, size) && total == |inputs| * size
    ensures HoldBlocks(slots, size, total) && Gathered(slots, size, total) == Concat(inputs)
  {
    forall q: nat | q < |inputs| ensures Blocks(slots, size, total)[q] == inputs[q] {
      assert StagedAt(slots[q], Offset(Gather, q, size), inputs[q]);
    }
    assert Blocks(slots, size, total) == inputs;
  }

  /** The library reduces exactly the tensors: element i is the sum of the ranks' elements i. */
  lemma ReduceDelivers(slots: seq<seq<int>>, inputs: seq<seq<int>>, size: nat)
    requires AllStaged(Reduce, slots, inputs, size)
    ensures Reduced(slots, size) == Reduced(inputs, size)
  {
    forall i | 0 <= i < size ensures ColumnSum(slots, i) == ColumnSum(inputs, i) {
      forall q | 0 <= q < |inputs| ensures slots[q][i] == inputs[q][i] {
        assert StagedAt(slots[q], Offset(Reduce, q, size), inputs[q]);
        assert slots[q][0..][..size][i] == inputs[q][i];
      }
      assert seq(|slots|, q requires 0 <= q < |slots| => slots[q][i])
          == seq(|inputs|, q requires 0 <= q < |inputs| => inputs[q][i]);
    }
  }

  // ---------- the pools of a node ----------

  ghost function Memory(pools: seq<RoundRobinPool>): set<array<int>> {
    set q, i | 0 <= q < |pools| && 0 <= i < |pools[q].slots| :: pools[q].slots[i]
  }

  /** The ranks' pools: equal in shape, equally far advanced, and with separate memory. */
  ghost predicate Node(pools: seq<RoundRobinPool>)
    reads pools, Memory(pools)
  {
    && |pools| > 0
    && (forall q :: 0 <= q < |pools| ==> pools[q].Valid())
    && (forall q :: 0 <= q < |pools| ==>
          pools[q].capacity == pools[0].capacity && pools[q].calls == pools[0].calls
          && |pools[q].slots| == |pools[0].slots|)
    && Separate(pools)
  }

  ghost predicate Separate(pools: seq<RoundRobinPool>) {
    forall p, q :: 0 <= p < |pools| && 0 <= q < |pools| && p != q ==> pools[p] != pools[q] && Apart(pools[p], pools[q])
  }

  ghost predicate Apart(a: RoundRobinPool, b: RoundRobinPool) {
    forall i, j :: 0 <= i < |a.slots| && 0 <= j < |b.slots| ==> a.slots[i] != b.slots[j]
  }

  /** The slot of a pool that the next collective uses. */
  ghost function Turn(pool: RoundRobinPool): seq<int>
    reads pool, pool.slots
    requires pool.Valid()
  {
    pool.slots[pool.index][..]
  }

  /** What a rank's returned view reads. */
  ghost predicate Reads(pool: RoundRobinPool, r: Outcome, data: seq<int>)
    reads pool, pool.slots
  {
    && r.Done? && r.view.slot < |pool.slots| && r.view.offset + r.view.size <= pool.slots[r.view.slot].Length
    && Read(pool.Now(), r.view) == data
  }

  ghost predicate Ready(pool: RoundRobinPool, slot: seq<int>, calls: nat)
    reads pool, pool.slots
  {
    pool.Valid() && Turn(pool) == slot && pool.calls == calls
  }

  ghost predicate Holds(pool: RoundRobinPool, offset: nat, input: seq<int>, view: View, calls: nat)
    reads pool, pool.slots
  {
    && pool.Valid() && pool.calls == calls
    && StagedAt(Turn(pool), offset, input) && view == View(pool.index, offset, |input|)
  }

  ghost predicate Finished(pool: RoundRobinPool, r: Outcome, data: seq<int>, calls: nat)
    reads pool, pool.slots
  {
    pool.Valid() && Reads(pool, r, data) && pool.calls == calls
  }

  // ---------- the two phases ----------

  /** One rank acquires its view and copies its tensor into it. */
  method StageOne(pool: RoundRobinPool, offset: nat, input: seq<int>) returns (view: View)
    requires pool.Valid() && offset + |input| <= pool.capacity
    modifies pool.slots[pool.index]
    ensures Holds(pool, offset, input, view, pool.calls)
  {
    var r := pool.Acquire(offset, |input|);
    view := r.view;
    ghost var before := pool.Now();
    pool.CopyInto(view, input);
    assert Turn(pool) == NextSlot(pool.Now()) == Overlay(NextSlot(before), offset, input);
  }

  lemma OffsetFits(kind: Kind, q: nat, world: nat, size: nat)
    requires q < world
    ensures Offset(kind, q, size) + size <= Extent(kind, world, size)
  {
    ShardFits(q, world, size);
  }

  method StageAll(kind: Kind, pools: seq<RoundRobinPool>, inputs: seq<seq<int>>, size: nat) returns (views: seq<View>)
    requires Node(pools) && |inputs| == |pools| && Extent(kind, |pools|, size) <= pools[0].capacity
    requires forall q :: 0 <= q < |inputs| ==> |inputs[q]| == size
    modifies Memory(pools)
    ensures Node(pools) && |views| == |pools|
    ensures forall q: nat :: q < |pools| ==>
              Holds(pools[q], Offset(kind, q, size), inputs[q], views[q], pools[0].calls)
  {
    views := [];
    var q: nat := 0;
    while q < |pools|
      invariant q <= |pools| && |views| == q
      invariant forall p :: q <= p < |pools| ==> pools[p].Valid()
      invariant forall p: nat :: p < q ==> Holds(pools[p], Offset(kind, p, size), inputs[p], views[p], pools[0].calls)
    {
      OffsetFits(kind, q, |pools|, size);
      forall p | 0 <= p < |pools| && p != q ensures pools[p] != pools[q] && Apart(pools[p], pools[q]) {
      }
      var view := StageOne(pools[q], Offset(kind, q, size), inputs[q]);
      views := views + [view];
      q := q + 1;
    }
    assert forall p: nat :: p < |pools| ==> Holds(pools[p], Offset(kind, p, size), inputs[p], views[p], pools[0].calls);
  }

  /** The slots of this turn, as the library finds them. */
  method TurnSlots(pools: seq<RoundRobinPool>) returns (slots: seq<seq<int>>)
    requires Node(pools)
    ensures |slots| == |pools| && forall q :: 0 <= q < |pools| ==> slots[q] == Turn(pools[q])
  {
    slots := [];
    while |slots| < |pools|
      invariant |slots| <= |pools| && forall q :: 0 <= q < |slots| ==> slots[q] == Turn(pools[q])
    {
      var pool := pools[|slots|];
      slots := slots + [pool.slots[pool.index][..]];
    }
  }

  lemma CollectiveReads(s: State, memory: seq<int>, slot: nat)
    requires |s.slots| > 0 && slot == s.calls % |s.slots| && |memory| <= |s.slots[slot]|
    ensures Collective(s, memory, true).slots[slot][0..][..|memory|] == memory
  {
    assert Overlay(s.slots[slot], 0, memory)[0..][..|memory|] == memory;
  }

  /** The library call on one rank, with every rank's tensor in place. */
  method CallOne(kind: Kind, pool: RoundRobinPool, q: nat, slots: seq<seq<int>>, view: View, inputs: seq<seq<int>>,
                 size: nat)
    returns (r: Outcome)
    requires pool.Valid() && q < |slots| && Turn(pool) == slots[q] && view == View(pool.index, Offset(kind, q, size), size)
    requires AllStaged(kind, slots, inputs, size) && forall p :: 0 <= p < |slots| ==> |slots[p]| == pool.capacity
    modifies pool`index, pool`calls, pool.slots[pool.index]
    ensures Finished(pool, r, Expected(kind, inputs, size), old(pool.calls) + 1)
  {
    ghost var before := pool.Now();
    assert slots[q := Turn(pool)] == slots;
    var left := seq(Extent(kind, |slots|, size), i => 0);
    if kind.Gather? {
      GatherDelivers(slots, inputs, size, |left|);
      r := pool.AllGatherPreloadedSlot(view, q, slots, true, left);
    } else {
      ReduceDelivers(slots, inputs, size);
      r := pool.AllReducePreloadedSlot(view, q, slots, true, left);
    }
    CollectiveReads(before, Expected(kind, inputs, size), before.calls % |before.slots|);
  }

  method CallAll(kind: Kind, pools: seq<RoundRobinPool>, slots: seq<seq<int>>, views: seq<View>, inputs: seq<seq<int>>,
                 size: nat, ghost data: seq<int>, ghost calls: nat)
    returns (results: seq<Outcome>)
    requires Node(pools) && |slots| == |views| == |pools| && AllStaged(kind, slots, inputs, size)
    requires data == Expected(kind, inputs, size) && calls == pools[0].calls
    requires forall q: nat :: q < |pools| ==>
               Turn(pools[q]) == slots[q] && views[q] == View(pools[0].index, Offset(kind, q, size), size)
    modifies pools, Memory(pools)
    ensures |results| == |pools| && forall q :: 0 <= q < |pools| ==> Finished(pools[q], results[q], data, calls + 1)
  {
    results := [];
    var q: nat := 0;
    while q < |pools|
      invariant q <= |pools| && |results| == q
      invariant forall p :: q <= p < |pools| ==> Ready(pools[p], slots[p], calls)
      invariant forall p :: 0 <= p < q ==> Finished(pools[p], results[p], data, calls + 1)
    {
      assert Ready(pools[q], slots[q], calls);
      forall p | 0 <= p < |pools| && p != q ensures pools[p] != pools[q] && Apart(pools[p], pools[q]) {
      }
      var r := CallOne(kind, pools[q], q, slots, views[q], inputs, size);
      results := results + [r];
      q := q + 1;
    }
  }

  lemma StillNode(pools: seq<RoundRobinPool>, results: seq<Outcome>, data: seq<int>, calls: nat)
    requires |pools| > 0 && |results| == |pools| && Separate(pools)
    requires forall q :: 0 <= q < |pools| ==>
               pools[q].capacity == pools[0].capacity && |pools[q].slots| == |pools[0].slots|
    requires forall q :: 0 <= q < |pools| ==> Finished(pools[q], results[q], data, calls)
    ensures Node(pools)
  {
  }

  /** The collective on all ranks: after every rank's copy and the library call, every rank's view reads
      the tensors of all ranks in rank order (all-gather) or their elementwise sum (all-reduce), and all
      pools have moved to the following slot. */
  method RunOnNode(kind: Kind, pools: seq<RoundRobinPool>, inputs: seq<seq<int>>, size: nat)
    returns (results: seq<Outcome>)
    requires Node(pools) && |inputs| == |pools| && Extent(kind, |pools|, size) <= pools[0].capacity
    requires forall q :: 0 <= q < |inputs| ==> |inputs[q]| == size
    modifies pools, Memory(pools)
    ensures Node(pools) && |results| == |pools|
    ensures forall q :: 0 <= q < |pools| ==>
              Finished(pools[q], results[q], Expected(kind, inputs, size), old(pools[0].calls) + 1)
  {
    var views := StageAll(kind, pools, inputs, size);
    var slots := TurnSlots(pools);
    forall q: nat | q < |pools|
      ensures StagedAt(slots[q], Offset(kind, q, size), inputs[q]) && |slots[q]| == pools[0].capacity
      ensures views[q] == View(pools[0].index, Offset(kind, q, size), size)
    {
      assert Holds(pools[q], Offset(kind, q, size), inputs[q], views[q], pools[0].calls);
    }
    ghost var data, calls := Expected(kind, inputs, size), pools[0].calls;
    results := CallAll(kind, pools, slots, views, inputs, size, data, calls);
    StillNode(pools, results, data, calls + 1);
  }
}
