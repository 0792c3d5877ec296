/**
 The round-robin slot pools of the torch communicator: preallocated storage that successive
 collectives reuse in turn, and views that alias it.  Every rank has one pool; the library call
 works on what the ranks have put into the slots whose turn it is.
 */
module SlotPool {
  import opened Arith
  import opened Sequences

  /** A tensor view: `size` elements of one slot from `offset` on. */
  datatype View = View(slot: nat, offset: nat, size: nat)

  /** TooLarge: narrowing the slot fails.  Failed: the library call returns an error status. */
  datatype Outcome = Done(view: View) | TooLarge | Failed

  /** Contents of the pool, and how many collectives have succeeded on it. */
  datatype State = State(slots: seq<seq<int>>, calls: nat)

  /** The slot with `data` written from `offset` on. */
  function Overlay(slot: seq<int>, offset: nat, data: seq<int>): (r: seq<int>)
    requires offset + |data| <= |slot|
    ensures |r| == |slot|
    ensures r[offset..][..|data|] == data
    ensures forall i :: 0 <= i < |slot| && !(offset <= i < offset + |data|) ==> r[i] == slot[i]
  {
    slot[..offset] + data + slot[offset + |data|..]
  }

  function Read(s: State, v: View): seq<int>
    requires v.slot < |s.slots| && v.offset + v.size <= |s.slots[v.slot]|
  {
    s.slots[v.slot][v.offset..][..v.size]
  }

  /** The slot that the next collective uses. */
  function NextSlot(s: State): seq<int>
    requires |s.slots| > 0
  {
    s.slots[s.calls % |s.slots|]
  }

  /** A tensor copied into the next slot, ready for the collective. */
  function Stage(s: State, offset: nat, data: seq<int>): (s': State)
    requires |s.slots| > 0 && offset + |data| <= |NextSlot(s)|
    ensures |s'.slots| == |s.slots| && s'.calls == s.calls && NextSlot(s') == Overlay(NextSlot(s), offset, data)
    ensures forall i :: 0 <= i < |s.slots| ==> |s'.slots[i]| == |s.slots[i]|
  {
    s.(slots := s.slots[s.calls % |s.slots| := Overlay(NextSlot(s), offset, data)])
  }

  // ---------- what the library does to the slots ----------

  /** Element i added up over the ranks' slots. */
  function ColumnSum(slots: seq<seq<int>>, i: nat): int
    requires forall q :: 0 <= q < |slots| ==> i < |slots[q]|
  {
    Sum(seq(|slots|, q requires 0 <= q < |slots| => slots[q][i]))
  }

  /** One more rank adds its element. */
  lemma ColumnSumAdds(slots: seq<seq<int>>, slot: seq<int>, i: nat)
    requires i < |slot| && forall q :: 0 <= q < |slots| ==> i < |slots[q]|
    ensures ColumnSum([], i) == 0 && ColumnSum([slot], i) == slot[i]
    ensures ColumnSum(slots + [slot], i) == ColumnSum(slots, i) + slot[i]
  {
    var column := seq(|slots|, q requires 0 <= q < |slots| => slots[q][i]);
    var longer := seq(|slots + [slot]|, q requires 0 <= q < |slots + [slot]| => (slots + [slot])[q][i]);
    assert longer == column + [slot[i]];
    SumAppend(column, [slot[i]]);
    assert Sum([slot[i]]) == slot[i] + Sum([]);
    assert seq(|[slot]|, q requires 0 <= q < |[slot]| => [slot][q][i]) == [slot[i]];
  }

  /** All-reduce leaves these first `size` elements in every rank's slot. */
  function Reduced(slots: seq<seq<int>>, size: nat): (r: seq<int>)
    requires forall q :: 0 <= q < |slots| ==> size <= |slots[q]|
    ensures |r| == size
  {
    seq(size, i requires 0 <= i < size => ColumnSum(slots, i))
  }

  /** Rank q's block of a slot. */
  function Block(slot: seq<int>, q: nat, size: nat): (r: seq<int>)
    requires 0 <= q * size && q * size + size <= |slot|
    ensures |r| == size
  {
    slot[q * size..][..size]
  }

  /** Slots large enough for one block per rank, `total` elements in all. */
  ghost predicate HoldBlocks(slots: seq<seq<int>>, size: nat, total: nat) {
    total == |slots| * size && forall q :: 0 <= q < |slots| ==> total <= |slots[q]|
  }

  function Blocks(slots: seq<seq<int>>, size: nat, total: nat): (r: seq<seq<int>>)
    requires HoldBlocks(slots, size, total)
    ensures |r| == |slots| && forall q :: 0 <= q < |slots| ==> |r[q]| == size
  {
    seq(|slots|, q requires 0 <= q < |slots| => (ShardFits(q, |slots|, size); Block(slots[q], q, size)))
  }

  /** All-gather leaves these blocks at the head of every rank's slot: block q is rank q's own. */
  function Gathered(slots: seq<seq<int>>, size: nat, total: nat): (r: seq<int>)
    requires HoldBlocks(slots, size, total)
    ensures |r| == total
  {
    ConcatSize(Blocks(slots, size, total), size);
    Concat(Blocks(slots, size, total))
  }

  /** The shards in rank order. */
  function Concat(shards: seq<seq<int>>): seq<int> {
    if shards == [] then [] else Concat(shards[..|shards| - 1]) + shards[|shards| - 1]
  }

  lemma {:induction false} ConcatSize(shards: seq<seq<int>>, size: nat)
    requires forall r :: 0 <= r < |shards| ==> |shards[r]| == size
    ensures |Concat(shards)| == |shards| * size
  {
    if shards != [] {
      var n := |shards| - 1;
      ConcatSize(shards[..n], size);
      MulSucc(n, size);
    }
  }

  class RoundRobinPool {
    const slots: seq<array<int>>
    var index: nat
    const capacity: nat
    ghost var calls: nat

    ghost predicate Valid()
      reads this, slots
    {
      && |slots| > 0
      && (forall i :: 0 <= i < |slots| ==> slots[i].Length == capacity)
      && (forall i, j :: 0 <= i < j < |slots| ==> slots[i] != slots[j])
      && index == calls % |slots|
    }

    ghost function Now(): State
      reads this, slots
    {
      State(seq(|slots|, i requires 0 <= i < |slots| reads this, slots => slots[i][..]), calls)
    }

    constructor (slotCount: nat, capacity: nat)
      requires slotCount > 0
      ensures Valid() && |slots| == slotCount && this.capacity == capacity && calls == 0
      ensures fresh(slots)
    {
      var built: seq<array<int>> := [];
      while |built| < slotCount
        invariant |built| <= slotCount && fresh(built)
        invariant forall i :: 0 <= i < |built| ==> built[i].Length == capacity
        invariant forall i, j :: 0 <= i < j < |built| ==> built[i] != built[j]
      {
        var a := new int[capacity];
        built := built + [a];
      }
      this.capacity := capacity;
      this.slots, this.index, this.calls := built, 0, 0;
    }

    /** The view of the next slot that a collective of this size will use. */
    method Acquire(offset: nat, size: nat) returns (view: Outcome)
      requires Valid()
      ensures view == if offset + size <= capacity then Done(View(calls % |slots|, offset, size)) else TooLarge
    {
      if offset + size > capacity {
        return TooLarge;
      }
      return Done(View(index, offset, size));
    }

    /** Copies data into a view of the pool. */
    method CopyInto(view: View, data: seq<int>)
      requires Valid() && view.slot < |slots| && view.offset + view.size <= capacity && |data| == view.size
      modifies slots[view.slot]
      ensures Valid()
      ensures Now() == old(Now()).(slots := old(Now()).slots[view.slot :=
                         Overlay(old(Now()).slots[view.slot], view.offset, data)])
    {
      var a := slots[view.slot];
      forall i | 0 <= i < |data| {
        a[view.offset + i] := data[i];
      }
      assert a[..] == Overlay(old(a[..]), view.offset, data);
      assert forall i :: 0 <= i < |slots| && i != view.slot ==> slots[i][..] == old(slots[i][..]);
    }

    /** The other ranks' slots of the same turn, as the library finds them; this rank's entry is ignored. */
    ghost predicate Peers(rank: nat, peers: seq<seq<int>>)
      reads this
    {
      rank < |peers| && forall q :: 0 <= q < |peers| ==> |peers[q]| == capacity
    }

    /** The slots of all ranks, with what this rank's memory holds. */
    ghost function AllSlots(rank: nat, peers: seq<seq<int>>): seq<seq<int>>
      reads this, slots
      requires Valid() && Peers(rank, peers)
    {
      peers[rank := slots[index][..]]
    }

    /** After the library returned: on success the next collective uses the following slot. */
    method Finish(memory: seq<int>, ok: bool)
      requires Valid() && |memory| <= capacity
      modifies this`index, this`calls, slots[index]
      ensures Valid()
      ensures Now() == Collective(old(Now()), memory, ok)
    {
      CopyInto(View(index, 0, |memory|), memory);
      if ok {
        NextIndex(calls, |slots|);
        index := (index + 1) % |slots|;
        calls := calls + 1;
      }
    }

    /** Reduces what the ranks' slots hold.  A failing call leaves `left` there and keeps the slot's turn. */
    method AllReducePreloadedSlot(slotView: View, rank: nat, peers: seq<seq<int>>, ok: bool, left: seq<int>)
      returns (r: Outcome)
      requires Valid() && Peers(rank, peers) && slotView.size <= capacity && |left| == slotView.size
      modifies this`index, this`calls, slots[index]
      ensures Valid()
      ensures Now() == Collective(old(Now()), if ok then Reduced(old(AllSlots(rank, peers)), slotView.size) else left, ok)
      ensures r == if ok then Done(slotView) else Failed
    {
      var all := peers[rank := slots[index][..]];
      Finish(if ok then Reduced(all, slotView.size) else left, ok);
      r := if ok then Done(slotView) else Failed;
    }

    /** Brings every rank's block to every slot. */
    method AllGatherPreloadedSlot(localView: View, rank: nat, peers: seq<seq<int>>, ok: bool, left: seq<int>)
      returns (r: Outcome)
      requires Valid() && Peers(rank, peers) && |left| == |peers| * localView.size
      modifies this`index, this`calls, slots[index]
      ensures Valid()
      ensures |left| > capacity ==> r == TooLarge && Now() == old(Now())
      ensures |left| <= capacity ==>
                && HoldBlocks(old(AllSlots(rank, peers)), localView.size, |left|)
                && Now() == Collective(old(Now()), if ok then Gathered(old(AllSlots(rank, peers)), localView.size, |left|) else left, ok)
                && r == if ok then Done(View(old(calls) % |slots|, 0, |left|)) else Failed
    {
      var slotIndex := index;
      if |peers| * localView.size > capacity {
        return TooLarge;
      }
      var all := peers[rank := slots[index][..]];
      Finish(if ok then Gathered(all, localView.size, |left|) else left, ok);
      r := if ok then Done(View(slotIndex, 0, |peers| * localView.size)) else Failed;
    }

    /** All-reduce of one tensor: copies it into the next slot, reduces there, and returns the view. */
    method AllReduceRoundRobin(input: seq<int>, rank: nat, peers: seq<seq<int>>, ok: bool, left: seq<int>)
      returns (r: Outcome)
      requires Valid() && Peers(rank, peers) && |left| == |input|
      modifies this`index, this`calls, slots[index]
      ensures Valid()
      ensures |input| > capacity ==> r == TooLarge && Now() == old(Now())
      ensures |input| <= capacity ==>
                var staged := Stage(old(Now()), 0, input);
                && Now() == Collective(staged, if ok then Reduced(peers[rank := NextSlot(staged)], |input|) else left, ok)
                && r == if ok then Done(View(old(calls) % |slots|, 0, |input|)) else Failed
    {
      r := Acquire(0, |input|);
      if r.TooLarge? {
        return;
      }
      CopyInto(r.view, input);
      r := AllReducePreloadedSlot(r.view, rank, peers, ok, left);
    }

    /** All-gather of one tensor per rank: this rank's shard goes to rank * numel of the next slot. */
    method AllGatherRoundRobin(input: seq<int>, rank: nat, peers: seq<seq<int>>, ok: bool, left: seq<int>)
      returns (r: Outcome)
      requires Valid() && Peers(rank, peers) && |left| == |peers| * |input|
      modifies this`index, this`calls, slots[index]
      ensures Valid()
      ensures 0 <= rank * |input|
      ensures rank * |input| + |input| > capacity ==> r == TooLarge && Now() == old(Now())
      ensures rank * |input| + |input| <= capacity < |left| ==>
                r == TooLarge && Now() == Stage(old(Now()), rank * |input|, input)
      ensures |left| <= capacity ==>
                && rank * |input| + |input| <= capacity
                && var staged := Stage(old(Now()), rank * |input|, input);
                && HoldBlocks(peers[rank := NextSlot(staged)], |input|, |left|)
                && Now() == Collective(staged, if ok then Gathered(peers[rank := NextSlot(staged)], |input|, |left|) else left, ok)
                && r == if ok then Done(View(old(calls) % |slots|, 0, |left|)) else Failed
    {
      ShardFits(rank, |peers|, |input|);
      r := Acquire(rank * |input|, |input|);
      if r.TooLarge? {
        return;
      }
      CopyInto(r.view, input);
      r := AllGatherPreloadedSlot(r.view, rank, peers, ok, left);
    }
  }

  /** One collective on the next slot. */
  function Collective(s: State, memory: seq<int>, ok: bool): State
    requires |s.slots| > 0 && |memory| <= |s.slots[s.calls % |s.slots|]|
  {
    var slot := s.calls % |s.slots|;
    State(s.slots[slot := Overlay(s.slots[slot], 0, memory)], if ok then s.calls + 1 else s.calls)
  }

  lemma NextIndex(calls: nat, n: nat)
    requires n > 0
    ensures (calls + 1) % n == (calls % n + 1) % n
  {
    DivBounds(calls, n);
    var q, r := calls / n, calls % n;
    if r + 1 == n {
      assert (q + 1) * n == q * n + n;
      DivModUnique(calls + 1, q + 1, 0, n);
    } else {
      DivModUnique(calls + 1, q, r + 1, n);
      DivModUnique(r + 1, 0, r + 1, n);
    }
  }

  lemma ShardFits(rank: nat, world: nat, size: nat)
    requires rank < world
    ensures 0 <= rank * size && rank * size + size <= world * size
  {
    MulNonneg(rank, size);
    MulLe(rank + 1, world, size);
  }

  // ---------- sequences of calls ----------

  /** One collective of a run: what it leaves in its slot and whether it succeeded. */
  datatype Call = Call(memory: seq<int>, ok: bool)

  ghost predicate Fits(s: State, run: seq<Call>) {
    && |s.slots| > 0
    && forall i, j :: 0 <= i < |s.slots| && 0 <= j < |run| ==> |run[j].memory| <= |s.slots[i]|
  }

  function Successes(run: seq<Call>): nat {
    if run == [] then 0 else Successes(run[..|run| - 1]) + if run[|run| - 1].ok then 1 else 0
  }

  ghost function Run(s: State, run: seq<Call>): (s': State)
    requires Fits(s, run)
    ensures |s'.slots| == |s.slots| && s'.calls == s.calls + Successes(run)
    ensures forall i :: 0 <= i < |s.slots| ==> |s'.slots[i]| == |s.slots[i]|
  {
    if run == [] then s
    else
      var n := |run| - 1;
      Collective(Run(s, run[..n]), run[n].memory, run[n].ok)
  }

  /** Ranks whose pools are equally advanced, and that see the same calls succeed, stay in step:
      they use the same slot next, whatever data they move. */
  lemma {:induction false} RanksStayInStep(s: State, s': State, run: seq<Call>, run': seq<Call>)
    requires Fits(s, run) && Fits(s', run') && s.calls == s'.calls && |s.slots| == |s'.slots|
    requires |run| == |run'| && forall j :: 0 <= j < |run| ==> run[j].ok == run'[j].ok
    ensures Run(s, run).calls == Run(s', run').calls
    ensures Run(s, run).calls % |s.slots| == Run(s', run').calls % |s'.slots|
  {
    if run != [] {
      var n := |run| - 1;
      RanksStayInStep(s, s', run[..n], run'[..n]);
    }
  }

  /** Fewer than n collectives further on, the index has not come back. */
  lemma SlotsDiffer(k: nat, d: nat, n: nat)
    requires 0 < d < n
    ensures (k + d) % n != k % n
  {
    DivBounds(k, n);
    var q, r := k / n, k % n;
    if r + d < n {
      DivModUnique(k + d, q, r + d, n);
    } else {
      assert (q + 1) * n == q * n + n;
      DivModUnique(k + d, q + 1, r + d - n, n);
    }
  }

  lemma OtherSlotsKept(s: State, memory: seq<int>, ok: bool, slot: nat)
    requires |s.slots| > 0 && slot < |s.slots| && slot != s.calls % |s.slots|
    requires |memory| <= |s.slots[s.calls % |s.slots|]|
    ensures Collective(s, memory, ok).slots[slot] == s.slots[slot]
  {
  }

  /** The slot of successful call k (from 0) keeps its contents through every later call that starts
      before n - 1 further successes, n being the number of slots. */
  lemma {:induction false} ViewUntouched(s: State, run: seq<Call>, k: nat, n: nat, slot: nat)
    requires Fits(s, run) && s.calls == k + 1 && n == |s.slots| && slot == k % n
    requires forall j :: 0 <= j < |run| ==> Successes(run[..j]) < n - 1
    ensures Run(s, run).slots[slot] == s.slots[slot]
  {
    if run != [] {
      var last := |run| - 1;
      forall j | 0 <= j < last ensures Successes(run[..last][..j]) < n - 1 {
        assert run[..last][..j] == run[..j];
      }
      ViewUntouched(s, run[..last], k, n, slot);
      SlotsDiffer(k, 1 + Successes(run[..last]), n);
      OtherSlotsKept(Run(s, run[..last]), run[last].memory, run[last].ok, slot);
    }
  }

  lemma SlotsMeet(k: nat, n: nat)
    requires n > 0
    ensures (k + n) % n == k % n
  {
    DivBounds(k, n);
    assert (k / n + 1) * n == k / n * n + n;
    DivModUnique(k + n, k / n + 1, k % n, n);
  }

  lemma CollectiveWrites(s: State, memory: seq<int>, ok: bool, slot: nat)
    requires |s.slots| > 0 && slot == s.calls % |s.slots| && |memory| <= |s.slots[slot]|
    ensures Collective(s, memory, ok).slots[slot][..|memory|] == memory
  {
  }

  /** The next call after that does reuse the slot. */
  lemma ViewReused(s: State, run: seq<Call>, k: nat, n: nat, slot: nat, next: Call)
    requires Fits(s, run) && Fits(s, [next]) && s.calls == k + 1 && n == |s.slots| && slot == k % n
    requires Successes(run) == n - 1
    ensures slot == Run(s, run).calls % n && |next.memory| <= |s.slots[slot]|
    ensures Collective(Run(s, run), next.memory, next.ok).slots[slot][..|next.memory|] == next.memory
  {
    SlotsMeet(k, n);
    assert [next][0] == next;
    CollectiveWrites(Run(s, run), next.memory, next.ok, slot);
  }

  lemma OverlayApart(slot: seq<int>, a: nat, b: nat, input: seq<int>, size: nat)
    requires a + |input| <= |slot| && b + size <= |slot| && (a + |input| <= b || b + size <= a)
    ensures Overlay(slot, a, input)[b..][..size] == slot[b..][..size]
  {
  }

  /** The ranks' blocks of a slot are disjoint: rank q's copy leaves every other block alone. */
  lemma OtherBlocksKept(slot: seq<int>, world: nat, size: nat, q: nat, p: nat, input: seq<int>)
    requires world * size <= |slot| && q < world && p < world && p != q && |input| == size
    ensures 0 <= q * size && q * size + size <= |slot| && 0 <= p * size && p * size + size <= |slot|
    ensures Block(Overlay(slot, q * size, input), p, size) == Block(slot, p, size)
  {
    ShardFits(q, world, size);
    ShardFits(p, world, size);
    if p < q {
      MulLe(p + 1, q, size);
    } else {
      MulLe(q + 1, p, size);
    }
    OverlayApart(slot, q * size, p * size, input, size);
  }

  /** The gathered tensor holds shard r at [r * size, (r + 1) * size), and nothing else. */
  lemma {:induction false} ShardsFill(shards: seq<seq<int>>, size: nat, r: nat, j: nat)
    requires forall q :: 0 <= q < |shards| ==> |shards[q]| == size
    requires r < |shards| && j < size
    ensures 0 <= r * size + j < |Concat(shards)| == |shards| * size
    ensures Concat(shards)[r * size + j] == shards[r][j]
  {
    var n := |shards| - 1;
    ConcatSize(shards, size);
    ConcatSize(shards[..n], size);
    PairBound(r, j, |shards|, size);
    if r < n {
      ShardsFill(shards[..n], size, r, j);
    }
  }
}
