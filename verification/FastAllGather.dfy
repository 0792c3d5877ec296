/** The all-gather side of the fast/fallback decision: every rank validates every shard. */
module FastAllGather {
  import opened Arith
  import opened Sequences
  import opened Shares
  import opened FastPath

  /** The first k peers are other ranks, each once, with all their pointers set. */
  ghost predicate PeersOk(l: Launch, k: int) {
    && k <= |l.peers|
    && (forall i: nat :: i < k ==> PeerOk(l, i))
    && (forall i: nat, j: nat :: i < j < k ==> l.peers[i].rank != l.peers[j].rank)
  }

  predicate PeerOk(l: Launch, i: nat)
    requires i < |l.peers|
  {
    var p := l.peers[i];
    0 <= p.rank < l.world && p.rank != l.rank && p.ptr != 0 && p.publishSignal != 0 && p.waitSignal != 0
  }

  /** p is the buffer of the given rank, as the local pointer and the first k peers tell. */
  ghost predicate RankPtr(l: Launch, k: int, rank: int, p: nat) {
    (rank == l.rank && p == l.localPtr) || exists i: nat :: i < k && IsPeer(l, i, rank, p)
  }

  predicate IsPeer(l: Launch, i: nat, rank: int, p: nat) {
    i < |l.peers| && l.peers[i].rank == rank && l.peers[i].ptr == p
  }

  ghost predicate AgShardOk(l: Launch, count: nat, rank: nat)
    requires l.world > 0
  {
    && ShardAligned(count, l.world, l.dtypeSize, rank)
    && ShardBytes(count, l.world, l.dtypeSize, rank) <= UINT32_MAX
    && Ctas(ShardBytes(count, l.world, l.dtypeSize, rank)) <= ALL_GATHER_MAX_CTAS
    && exists p: nat :: RankPtr(l, l.peerCount, rank, p) && p != 0 &&
         Aligned(p, OffsetBytes(count, l.world, l.dtypeSize, rank))
  }

  ghost predicate AgEligible(group: Group, l: Launch, count: nat) {
    && Guards(group, l, count) && l.rank < l.world
    && PeersOk(l, l.peerCount)
    && forall r: nat :: r < l.world ==> AgShardOk(l, count, r)
  }

  /** The rank table holds exactly the pointers of the first k peers and the local one. */
  ghost predicate Table(l: Launch, k: nat, rankPtrs: seq<nat>, seenRank: seq<bool>) {
    && |rankPtrs| == |seenRank|
    && forall r: nat, p: nat :: r < |seenRank| ==> (RankPtr(l, k, r, p) <==> seenRank[r] && rankPtrs[r] == p)
  }

  lemma RankPtrNext(l: Launch, k: nat, r: int, p: nat)
    ensures RankPtr(l, k + 1, r, p) <==> RankPtr(l, k, r, p) || IsPeer(l, k, r, p)
  {
  }

  /** A rank number that the table has not seen is new, and the table can take it. */
  lemma TableAdd(l: Launch, k: nat, rankPtrs: seq<nat>, seenRank: seq<bool>)
    requires k < |l.peers| && Table(l, k, rankPtrs, seenRank) && PeersOk(l, k) && PeerOk(l, k)
    requires l.peers[k].rank < |seenRank| && !seenRank[l.peers[k].rank]
    ensures PeersOk(l, k + 1)
    ensures Table(l, k + 1, rankPtrs[l.peers[k].rank := l.peers[k].ptr], seenRank[l.peers[k].rank := true])
  {
    var rank := l.peers[k].rank;
    forall i: nat | i < k ensures l.peers[i].rank != rank {
      assert IsPeer(l, i, l.peers[i].rank, l.peers[i].ptr);
      if l.peers[i].rank == rank {
        assert RankPtr(l, k, rank, l.peers[i].ptr);
      }
    }
    var next := k + 1;
    forall r: nat, p: nat | r < |seenRank|
      ensures RankPtr(l, next, r, p) <==> seenRank[rank := true][r] && rankPtrs[rank := l.peers[k].ptr][r] == p
    {
      RankPtrNext(l, k, r, p);
    }
  }

  /** A rank number that the table has seen repeats the local rank or an earlier peer. */
  lemma TableReject(l: Launch, k: nat, rankPtrs: seq<nat>, seenRank: seq<bool>)
    requires k < |l.peers| && Table(l, k, rankPtrs, seenRank) && PeerOk(l, k)
    requires l.peers[k].rank < |seenRank| && seenRank[l.peers[k].rank]
    ensures !PeersOk(l, k + 1)
  {
    var rank := l.peers[k].rank;
    assert RankPtr(l, k, rank, rankPtrs[rank]);
    var i: nat :| i < k && IsPeer(l, i, rank, rankPtrs[rank]);
  }

  /** First loop: fills the rank table and rejects a repeated or incomplete peer.  maxDevices is the
      table size, kOoMaxLocalDevices, which covers any world the fan-out limit admits. */
  method CollectPointers(l: Launch, maxDevices: nat) returns (ok: bool, rankPtrs: array<nat>, seenRank: array<bool>)
    requires 0 <= l.rank < l.world <= maxDevices && 0 <= l.peerCount <= |l.peers|
    ensures ok <==> PeersOk(l, l.peerCount)
    ensures seenRank.Length == maxDevices
    ensures ok ==> Table(l, l.peerCount, rankPtrs[..], seenRank[..])
  {
    rankPtrs := new nat[maxDevices](i => 0);
    seenRank := new bool[maxDevices](i => false);
    rankPtrs[l.rank] := l.localPtr;
    seenRank[l.rank] := true;
    var peerIdx := 0;
    while peerIdx < l.peerCount
      invariant 0 <= peerIdx <= l.peerCount
      invariant PeersOk(l, peerIdx)
      invariant Table(l, peerIdx, rankPtrs[..], seenRank[..])
    {
      var p := l.peers[peerIdx];
      if p.rank < 0 || p.rank >= l.world || p.rank >= maxDevices || seenRank[p.rank] || p.ptr == 0 ||
         p.publishSignal == 0 || p.waitSignal == 0 {
        if PeerOk(l, peerIdx) {
          TableReject(l, peerIdx, rankPtrs[..], seenRank[..]);
        }
        ok := false;
        return;
      }
      if p.rank == l.rank {
        assert RankPtr(l, peerIdx, l.rank, l.localPtr);
      }
      TableAdd(l, peerIdx, rankPtrs[..], seenRank[..]);
      ghost var seenBefore, ptrsBefore := seenRank[..], rankPtrs[..];
      rankPtrs[p.rank] := p.ptr;
      seenRank[p.rank] := true;
      assert seenRank[..] == seenBefore[p.rank := true] && rankPtrs[..] == ptrsBefore[p.rank := p.ptr];
      peerIdx := peerIdx + 1;
    }
    ok := true;
  }

  /** One iteration of the second loop. */
  method SourceChecks(l: Launch, count: nat, src: nat, rankPtr: nat) returns (ok: bool)
    requires src < l.world && l.dtypeSize > 0 && count <= (SIZE_LIMIT - 1) / l.dtypeSize
    requires count * l.dtypeSize == l.bytes
    requires forall p: nat :: RankPtr(l, l.peerCount, src, p) <==> p == rankPtr
    ensures ok <==> AgShardOk(l, count, src)
  {
    if rankPtr == 0 {
      return false;
    }
    ok := ShardChecks(l, count, src);
    if !ok {
      return;
    }
    var shardBytes := ShardBytes(count, l.world, l.dtypeSize, src);
    if shardBytes > UINT32_MAX || !Aligned(rankPtr, OffsetBytes(count, l.world, l.dtypeSize, src)) {
      return false;
    }
    MulPos(ShareCount(count, l.world, src), l.dtypeSize);
    CtasPositive(shardBytes);
    var ctas := Ctas(shardBytes);
    if ctas == 0 || ctas > ALL_GATHER_MAX_CTAS {
      return false;
    }
    assert RankPtr(l, l.peerCount, src, rankPtr);
  }

  method FastAllGatherEligible(group: Group, l: Launch, count: nat, maxDevices: nat) returns (ok: bool)
    requires Fits(l, count) && maxDevices > MAX_FANOUT_DSTS
    ensures ok <==> AgEligible(group, l, count)
  {
    if !Guards(group, l, count) || l.rank >= l.world || l.peerCount <= 0 {
      return false;
    }
    var collected, rankPtrs, seenRank := CollectPointers(l, maxDevices);
    if !collected {
      return false;
    }
    ok := CheckSources(l, count, rankPtrs[..], seenRank[..]);
  }

  /** Second loop: every rank's shard and pointer. */
  method CheckSources(l: Launch, count: nat, rankPtrs: seq<nat>, seenRank: seq<bool>) returns (ok: bool)
    requires 0 < l.world <= |seenRank| && 0 <= l.peerCount && Table(l, l.peerCount, rankPtrs, seenRank)
    requires l.dtypeSize > 0 && count <= (SIZE_LIMIT - 1) / l.dtypeSize && count * l.dtypeSize == l.bytes
    ensures ok <==> forall r: nat :: r < l.world ==> AgShardOk(l, count, r)
  {
    var src := 0;
    while src < l.world
      invariant 0 <= src <= l.world
      invariant forall r: nat :: r < src ==> AgShardOk(l, count, r)
    {
      if !seenRank[src] {
        assert !AgShardOk(l, count, src);
        return false;
      }
      var sourceOk := SourceChecks(l, count, src, rankPtrs[src]);
      if !sourceOk {
        return false;
      }
      src := src + 1;
    }
    return true;
  }

  // ---------- the decision in plain terms ----------

  /** Peer i is another rank with all its pointers set, its buffer 16-byte aligned. */
  predicate PlainPeer(l: Launch, i: nat) {
    && i < |l.peers| && 0 <= l.peers[i].rank < l.world && l.peers[i].rank != l.rank
    && l.peers[i].ptr != 0 && l.peers[i].ptr % 16 == 0 && l.peers[i].publishSignal != 0 && l.peers[i].waitSignal != 0
  }

  /** Rank r's share of the elements is not empty, made of whole 16-byte units, and at most three tasks of 64 KiB. */
  predicate PlainShard(l: Launch, count: nat, r: nat)
    requires l.world > 0
  {
    && ShareCount(count, l.world, r) > 0
    && ShareBegin(count, l.world, r) * l.dtypeSize % 16 == 0
    && ShareCount(count, l.world, r) * l.dtypeSize % 16 == 0
    && ShareCount(count, l.world, r) * l.dtypeSize <= 3 * 65536
  }

  ghost predicate PlainAllGather(group: Group, l: Launch, count: nat) {
    && PlainGuards(group, l, count) && l.rank < l.world && l.localPtr % 16 == 0 && l.peerCount <= |l.peers|
    && (forall i: nat :: i < l.peerCount ==> PlainPeer(l, i))
    && (forall i: nat, j: nat :: i < j < l.peerCount ==> l.peers[i].rank != l.peers[j].rank)
    && (forall r: nat :: r < l.world ==> PlainShard(l, count, r))
  }

  lemma ThreeTasks(bytes: nat)
    ensures Ctas(bytes) <= ALL_GATHER_MAX_CTAS <==> bytes <= 3 * 65536
  {
    CeilDivLeast(bytes, TASK_BYTES, 3);
  }

  ghost predicate AlignedPtr(l: Launch, r: nat, p: nat) {
    RankPtr(l, l.peerCount, r, p) && p != 0 && p % 16 == 0
  }

  /** A shard check is the plain one and an aligned pointer. */
  lemma AgShardIsPlain(l: Launch, count: nat, r: nat)
    requires l.world > 0
    ensures AgShardOk(l, count, r) <==>
            PlainShard(l, count, r) && exists p: nat :: AlignedPtr(l, r, p)
  {
    var bytes, offset := ShardBytes(count, l.world, l.dtypeSize, r), OffsetBytes(count, l.world, l.dtypeSize, r);
    ThreeTasks(bytes);
    if AgShardOk(l, count, r) {
      var p: nat :| RankPtr(l, l.peerCount, r, p) && p != 0 && Aligned(p, offset);
      AlignedIs(p, offset);
      assert AlignedPtr(l, r, p);
    }
    if PlainShard(l, count, r) && exists p: nat :: AlignedPtr(l, r, p) {
      var p: nat :| AlignedPtr(l, r, p);
      AlignedIs(p, offset);
    }
  }

  /** Distinct peers are all the other ranks. */
  lemma PeersCover(l: Launch, r: nat) returns (i: nat)
    requires 0 <= l.rank < l.world && l.peerCount == l.world - 1 && PeersOk(l, l.peerCount) && r < l.world && r != l.rank
    ensures i < l.peerCount && l.peers[i].rank == r
  {
    var ranks := seq(l.world, k requires 0 <= k < l.world => if k < l.peerCount then l.peers[k].rank else l.rank);
    forall k | 0 <= k < l.world ensures 0 <= ranks[k] < l.world {
      if k < l.peerCount {
        assert PeerOk(l, k);
      }
    }
    forall k, q | 0 <= k < q < l.world ensures ranks[k] != ranks[q] {
      assert PeerOk(l, k);
    }
    i := PermutationReaches(ranks, r);
  }

  /** With distinct peers every rank has one pointer. */
  lemma OnePointer(l: Launch, r: nat, i: nat, p: nat)
    requires PeersOk(l, l.peerCount) && i < l.peerCount && l.peers[i].rank == r && RankPtr(l, l.peerCount, r, p)
    ensures p == l.peers[i].ptr
  {
    assert PeerOk(l, i);
    var k: nat :| k < l.peerCount && IsPeer(l, k, r, p);
    if k < i || i < k {
      assert false;
    }
  }

  lemma OwnPointer(l: Launch, p: nat)
    requires PeersOk(l, l.peerCount) && RankPtr(l, l.peerCount, l.rank, p)
    ensures p == l.localPtr
  {
    if i: nat :| i < l.peerCount && IsPeer(l, i, l.rank, p) {
      assert PeerOk(l, i);
    }
  }

  lemma AllGatherIsPlain(group: Group, l: Launch, count: nat)
    requires Fits(l, count)
    ensures AgEligible(group, l, count) <==> PlainAllGather(group, l, count)
  {
    GuardsArePlain(group, l, count);
    if AgEligible(group, l, count) {
      EligibleIsPlain(group, l, count);
    }
    if PlainAllGather(group, l, count) {
      forall i: nat | i < l.peerCount ensures PeerOk(l, i) && l.peers[i].ptr % 16 == 0 {
        assert PlainPeer(l, i);
      }
      forall r: nat | r < l.world ensures AgShardOk(l, count, r) {
        assert PlainShard(l, count, r);
        AgShardIsPlain(l, count, r);
        if r == l.rank {
          assert AlignedPtr(l, r, l.localPtr);
        } else {
          var i := PeersCover(l, r);
          assert PlainPeer(l, i) && IsPeer(l, i, r, l.peers[i].ptr);
          assert AlignedPtr(l, r, l.peers[i].ptr);
        }
      }
    }
  }

  lemma EligibleIsPlain(group: Group, l: Launch, count: nat)
    requires Fits(l, count) && AgEligible(group, l, count)
    ensures PlainAllGather(group, l, count)
  {
    GuardsArePlain(group, l, count);
    forall r: nat | r < l.world ensures PlainShard(l, count, r) {
      var p := EligiblePtr(group, l, count, r);
    }
    var own := EligiblePtr(group, l, count, l.rank);
    OwnPointer(l, own);
    forall i: nat | i < l.peerCount ensures PlainPeer(l, i) {
      assert PeerOk(l, i);
      var p := EligiblePtr(group, l, count, l.peers[i].rank);
      OnePointer(l, l.peers[i].rank, i, p);
    }
  }

  lemma EligiblePtr(group: Group, l: Launch, count: nat, r: nat) returns (p: nat)
    requires AgEligible(group, l, count) && r < l.world
    ensures PlainShard(l, count, r) && AlignedPtr(l, r, p)
  {
    assert AgShardOk(l, count, r);
    AgShardIsPlain(l, count, r);
    p :| AlignedPtr(l, r, p);
  }

  // ---------- agreement of the ranks ----------

  ghost predicate ShardFits(count: nat, shared: Launch, rank: nat)
    requires shared.world > 0
  {
    && ShardAligned(count, shared.world, shared.dtypeSize, rank)
    && Ctas(ShardBytes(count, shared.world, shared.dtypeSize, rank)) <= ALL_GATHER_MAX_CTAS
  }

  /** What every rank decides: nothing here depends on the rank. */
  ghost predicate AgVerdict(group: Group, ls: seq<Launch>, count: nat, shared: Launch)
    requires shared.world > 0
  {
    && SharedGuards(group, count, shared)
    && (forall r: nat :: r < |ls| ==> ShardFits(count, shared, r) && ls[r].localPtr % 16 == 0)
  }

  /** The 32-bit check never decides: a shard of few CTAs is far smaller. */
  lemma FewCtasAreSmall(bytes: nat)
    requires Ctas(bytes) <= ALL_GATHER_MAX_CTAS
    ensures bytes <= UINT32_MAX
  {
  }

  lemma ConsistentPeersOk(ls: seq<Launch>, count: nat, shared: Launch, a: nat)
    requires Consistent(ls, count, shared) && a < |ls|
    ensures PeersOk(ls[a], ls[a].peerCount)
  {
    forall i: nat | i < ls[a].peerCount ensures PeerOk(ls[a], i) {
      assert PeerMatches(ls, a, i);
    }
  }

  /** Whichever entry the pointer comes from, it is aligned as its owner's buffer is. */
  lemma PtrAlignment(ls: seq<Launch>, count: nat, shared: Launch, a: nat, r: nat, p: nat)
    requires Consistent(ls, count, shared) && a < |ls| && r < |ls| && RankPtr(ls[a], ls[a].peerCount, r, p)
    ensures p != 0 && p % 16 == ls[r].localPtr % 16
  {
    if !(r == a && p == ls[a].localPtr) {
      var i: nat :| i < ls[a].peerCount && IsPeer(ls[a], i, r, p);
      assert PeerMatches(ls, a, i);
    }
  }

  lemma HasPtr(ls: seq<Launch>, count: nat, shared: Launch, a: nat, r: nat) returns (p: nat)
    requires Consistent(ls, count, shared) && a < |ls| && r < |ls|
    ensures RankPtr(ls[a], ls[a].peerCount, r, p)
  {
    p := ls[a].localPtr;
    if r != a {
      var i := EveryRankHasPeer(ls, count, shared, a, r);
      p := ls[a].peers[i].ptr;
      assert IsPeer(ls[a], i, r, p);
    }
  }

  lemma AgShardOkIff(ls: seq<Launch>, count: nat, shared: Launch, a: nat, r: nat)
    requires Consistent(ls, count, shared) && a < |ls| && r < |ls|
    ensures AgShardOk(ls[a], count, r) <==> ShardFits(count, shared, r) && ls[r].localPtr % 16 == 0
  {
    if ShardFits(count, shared, r) {
      FewCtasAreSmall(ShardBytes(count, shared.world, shared.dtypeSize, r));
      var offset := OffsetBytes(count, shared.world, shared.dtypeSize, r);
      var p := HasPtr(ls, count, shared, a, r);
      AlignedIs(p, offset);
      PtrAlignment(ls, count, shared, a, r, p);
      forall q: nat | RankPtr(ls[a], ls[a].peerCount, r, q) ensures Aligned(q, offset) <==> ls[r].localPtr % 16 == 0 {
        AlignedIs(q, offset);
        PtrAlignment(ls, count, shared, a, r, q);
      }
    }
  }

  lemma AgDecision(group: Group, ls: seq<Launch>, count: nat, shared: Launch, a: nat)
    requires Consistent(ls, count, shared) && a < |ls|
    ensures AgEligible(group, ls[a], count) <==> AgVerdict(group, ls, count, shared)
  {
    ConsistentPeersOk(ls, count, shared, a);
    forall r: nat | r < |ls|
      ensures AgShardOk(ls[a], count, r) <==> ShardFits(count, shared, r) && ls[r].localPtr % 16 == 0
    {
      AgShardOkIff(ls, count, shared, a, r);
    }
  }

  /** All ranks take the fast all-gather, or none does, for every element size. */
  lemma AllGatherAgrees(group: Group, ls: seq<Launch>, count: nat, shared: Launch, a: nat, b: nat)
    requires Consistent(ls, count, shared) && a < |ls| && b < |ls|
    ensures AgEligible(group, ls[a], count) <==> AgEligible(group, ls[b], count)
  {
    AgDecision(group, ls, count, shared, a);
    AgDecision(group, ls, count, shared, b);
  }
}
