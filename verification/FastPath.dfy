/**
 Which reduce-scatter and all-gather calls take the fast kernel.  Every rank decides on its own
 launch state; a collective in which two ranks decide differently mixes two protocols.
 */
module FastPath {
  import opened Arith
  import opened Sequences
  import opened Shares

  const TASK_BYTES: nat := 65536
  const REDUCE_SCATTER_MAX_CTAS: nat := 6
  const ALL_GATHER_MAX_CTAS: nat := 3
  const MAX_FANOUT_DSTS: nat := 4
  const SIZE_LIMIT: nat := 0x1_0000_0000_0000_0000
  const UINT32_MAX: nat := 0xffff_ffff

  /** One entry of the parallel peer arrays; pointers are addresses, 0 is the null pointer. */
  datatype Peer = Peer(rank: int, ptr: nat, publishSignal: nat, waitSignal: nat)

  datatype Launch = Launch(localPtr: nat, outOfPlace: bool, rank: int, world: int, peers: seq<Peer>, peerCount: int,
                           dtypeSize: nat, bytes: nat, epoch: int)

  datatype Group = NoGroup | Group(allPeerToPeer: bool, numDevices: int)

  /** The peer arrays hold at least the fan-out limit, and machine values are in range. */
  ghost predicate Fits(l: Launch, count: nat) {
    && MAX_FANOUT_DSTS <= |l.peers|
    && l.localPtr < SIZE_LIMIT && l.dtypeSize < SIZE_LIMIT && l.bytes < SIZE_LIMIT && count < SIZE_LIMIT
    && forall i :: 0 <= i < |l.peers| ==> l.peers[i].ptr < SIZE_LIMIT
  }

  /** The checks before the first loop that both collectives make. */
  predicate Guards(group: Group, l: Launch, count: nat) {
    && group.Group? && group.allPeerToPeer && !l.outOfPlace && l.localPtr != 0
    && l.rank >= 0 && l.world >= 2 && l.world == group.numDevices
    && l.peerCount == l.world - 1 && l.peerCount <= MAX_FANOUT_DSTS
    && l.dtypeSize != 0 && l.bytes != 0 && count != 0
    && count <= (SIZE_LIMIT - 1) / l.dtypeSize && count * l.dtypeSize == l.bytes
    && l.epoch > 0
  }

  // ---------- shards ----------

  function OffsetBytes(count: nat, world: nat, dtypeSize: nat, rank: nat): nat
    requires world > 0
  {
    MulNonneg(ShareBegin(count, world, rank), dtypeSize);
    ShareBegin(count, world, rank) * dtypeSize
  }

  function ShardBytes(count: nat, world: nat, dtypeSize: nat, rank: nat): nat
    requires world > 0
  {
    MulNonneg(ShareCount(count, world, rank), dtypeSize);
    ShareCount(count, world, rank) * dtypeSize
  }

  predicate ShardAligned(count: nat, world: nat, dtypeSize: nat, rank: nat)
    requires world > 0
  {
    && ShareCount(count, world, rank) != 0
    && OffsetBytes(count, world, dtypeSize, rank) % 16 == 0
    && ShardBytes(count, world, dtypeSize, rank) % 16 == 0
  }

  function Ctas(bytes: nat): nat {
    CeilDiv(bytes, TASK_BYTES)
  }

  /** The range and overflow checks inside the loops never fail. */
  lemma ShardInRange(count: nat, world: nat, dtypeSize: nat, rank: nat)
    requires world > 0 && rank < world && 0 < dtypeSize && count <= (SIZE_LIMIT - 1) / dtypeSize
    ensures ShareBegin(count, world, rank) <= count
    ensures ShareCount(count, world, rank) <= count - ShareBegin(count, world, rank)
    ensures ShareBegin(count, world, rank) <= (SIZE_LIMIT - 1) / dtypeSize
    ensures ShareCount(count, world, rank) <= (SIZE_LIMIT - 1) / dtypeSize
    ensures OffsetBytes(count, world, dtypeSize, rank) + ShardBytes(count, world, dtypeSize, rank) <= count * dtypeSize
  {
    ShareFits(count, world, rank);
    MulLe(ShareBegin(count, world, rank) + ShareCount(count, world, rank), count, dtypeSize);
  }

  /** Address arithmetic wraps, which does not disturb 16-byte alignment. */
  predicate Aligned(ptr: nat, offset: nat) {
    (ptr + offset) % SIZE_LIMIT % 16 == 0
  }

  lemma AlignedIs(ptr: nat, offset: nat)
    requires offset % 16 == 0
    ensures Aligned(ptr, offset) <==> ptr % 16 == 0
  {
  }

  // ---------- reduce-scatter ----------

  predicate FirstPeerIs(l: Launch, rank: int, i: nat) {
    i < l.peerCount && i < |l.peers| && l.peers[i].rank == rank && forall k :: 0 <= k < i ==> l.peers[k].rank != rank
  }

  ghost predicate PeerAligned(l: Launch, rank: int, offset: nat) {
    exists i: nat :: FirstPeerIs(l, rank, i) && l.peers[i].ptr != 0 && Aligned(l.peers[i].ptr, offset)
  }

  ghost predicate RsShardOk(l: Launch, count: nat, rank: nat)
    requires l.world > 0
  {
    var offset := OffsetBytes(count, l.world, l.dtypeSize, rank);
    && ShardAligned(count, l.world, l.dtypeSize, rank)
    && Aligned(l.localPtr, offset)
    && (rank != l.rank ==> PeerAligned(l, rank, offset))
  }

  /** CTAs for the shards of ranks below n, without the rank's own. */
  function RsCtas(l: Launch, count: nat, n: nat): nat
    requires l.world > 0
  {
    if n == 0 then 0
    else RsCtas(l, count, n - 1) + if n - 1 == l.rank then 0 else Ctas(ShardBytes(count, l.world, l.dtypeSize, n - 1))
  }

  ghost predicate RsEligible(group: Group, l: Launch, count: nat) {
    && Guards(group, l, count)
    && (forall r: nat :: r < l.world ==> RsShardOk(l, count, r))
    && RsCtas(l, count, l.world) <= REDUCE_SCATTER_MAX_CTAS
  }

  method FindPeer(l: Launch, rank: int) returns (peerIdx: int)
    requires 0 <= l.peerCount <= |l.peers|
    ensures peerIdx >= 0 ==> FirstPeerIs(l, rank, peerIdx)
    ensures peerIdx < 0 ==> forall i: nat :: !FirstPeerIs(l, rank, i)
  {
    peerIdx := -1;
    var candidate := 0;
    while candidate < l.peerCount
      invariant 0 <= candidate <= l.peerCount && peerIdx == -1
      invariant forall k :: 0 <= k < candidate ==> l.peers[k].rank != rank
    {
      if l.peers[candidate].rank == rank {
        peerIdx := candidate;
        break;
      }
      candidate := candidate + 1;
    }
  }

  lemma {:induction false} RsCtasMonotone(l: Launch, count: nat, i: nat, j: nat)
    requires l.world > 0 && i <= j
    ensures RsCtas(l, count, i) <= RsCtas(l, count, j)
    decreases j
  {
    if i < j {
      RsCtasMonotone(l, count, i, j - 1);
    }
  }

  lemma CtasPositive(bytes: nat)
    requires bytes > 0
    ensures Ctas(bytes) > 0
  {
  }

  /** The checks of one loop iteration before the peer lookup. */
  method ShardChecks(l: Launch, count: nat, rank: nat) returns (ok: bool)
    requires l.world > 0 && rank < l.world && l.dtypeSize > 0 && count <= (SIZE_LIMIT - 1) / l.dtypeSize
    requires count * l.dtypeSize == l.bytes
    ensures ok <==> ShardAligned(count, l.world, l.dtypeSize, rank)
  {
    ShardInRange(count, l.world, l.dtypeSize, rank);
    var offsetElements := ShareBegin(count, l.world, rank);
    var shardCount := ShareCount(count, l.world, rank);
    if shardCount == 0 || offsetElements > count || shardCount > count - offsetElements ||
       offsetElements > (SIZE_LIMIT - 1) / l.dtypeSize || shardCount > (SIZE_LIMIT - 1) / l.dtypeSize {
      return false;
    }
    var offsetBytes := OffsetBytes(count, l.world, l.dtypeSize, rank);
    var shardBytes := ShardBytes(count, l.world, l.dtypeSize, rank);
    if offsetBytes > l.bytes || shardBytes > l.bytes - offsetBytes || offsetBytes % 16 != 0 || shardBytes % 16 != 0 {
      return false;
    }
    return true;
  }

  /** Everything one iteration checks about the destination except the CTA budget. */
  method DestinationChecks(l: Launch, count: nat, dst: nat) returns (ok: bool)
    requires 0 <= l.peerCount <= |l.peers|
    requires l.world > 0 && dst < l.world && l.dtypeSize > 0 && count <= (SIZE_LIMIT - 1) / l.dtypeSize
    requires count * l.dtypeSize == l.bytes
    ensures ok <==> RsShardOk(l, count, dst)
  {
    ok := ShardChecks(l, count, dst);
    if !ok {
      return;
    }
    var offset := OffsetBytes(count, l.world, l.dtypeSize, dst);
    if !Aligned(l.localPtr, offset) {
      return false;
    }
    if dst != l.rank {
      var peerIdx := FindPeer(l, dst);
      if peerIdx < 0 || l.peers[peerIdx].ptr == 0 || !Aligned(l.peers[peerIdx].ptr, offset) {
        return false;
      }
      assert PeerAligned(l, dst, offset);
    }
  }

  /** The running budget check of one destination. */
  method AddCtas(total: nat, bytes: nat) returns (ok: bool, newTotal: nat)
    requires bytes > 0 && total <= REDUCE_SCATTER_MAX_CTAS
    ensures ok <==> total + Ctas(bytes) <= REDUCE_SCATTER_MAX_CTAS
    ensures newTotal == if ok then total + Ctas(bytes) else total
  {
    CtasPositive(bytes);
    var ctas := Ctas(bytes);
    newTotal := total;
    if ctas == 0 || ctas > REDUCE_SCATTER_MAX_CTAS || total > REDUCE_SCATTER_MAX_CTAS - ctas {
      return false, total;
    }
    return true, total + ctas;
  }

  lemma ShardNotEmpty(l: Launch, count: nat, rank: nat)
    requires l.world > 0 && l.dtypeSize > 0 && RsShardOk(l, count, rank)
    ensures ShardBytes(count, l.world, l.dtypeSize, rank) > 0
  {
  }

  /** The loop over the destinations. */
  method CheckDestinations(l: Launch, count: nat) returns (ok: bool)
    requires 0 <= l.peerCount <= |l.peers| && l.world >= 2
    requires l.dtypeSize > 0 && count <= (SIZE_LIMIT - 1) / l.dtypeSize && count * l.dtypeSize == l.bytes
    ensures ok <==> (forall r: nat :: r < l.world ==> RsShardOk(l, count, r)) &&
                    RsCtas(l, count, l.world) <= REDUCE_SCATTER_MAX_CTAS
  {
    var totalCtas: nat, dst: nat := 0, 0;
    while dst < l.world
      invariant dst <= l.world
      invariant forall r: nat :: r < dst ==> RsShardOk(l, count, r)
      invariant totalCtas == RsCtas(l, count, dst) <= REDUCE_SCATTER_MAX_CTAS
    {
      RsCtasMonotone(l, count, dst + 1, l.world);
      ok, totalCtas := AddDestination(l, count, dst, totalCtas);
      if !ok {
        return;
      }
      dst := dst + 1;
    }
    SomeCtas(l, count);
    ok := totalCtas > 0 && totalCtas <= REDUCE_SCATTER_MAX_CTAS;
  }

  /** One turn of the loop. */
  method AddDestination(l: Launch, count: nat, dst: nat, totalCtas: nat) returns (ok: bool, newTotal: nat)
    requires 0 <= l.peerCount <= |l.peers| && dst < l.world
    requires totalCtas == RsCtas(l, count, dst) <= REDUCE_SCATTER_MAX_CTAS
    requires l.dtypeSize > 0 && count <= (SIZE_LIMIT - 1) / l.dtypeSize && count * l.dtypeSize == l.bytes
    ensures ok <==> RsShardOk(l, count, dst) && (dst == l.rank || RsCtas(l, count, dst + 1) <= REDUCE_SCATTER_MAX_CTAS)
    ensures ok ==> newTotal == RsCtas(l, count, dst + 1)
  {
    newTotal := totalCtas;
    ok := DestinationChecks(l, count, dst);
    if ok && dst != l.rank {
      ShardNotEmpty(l, count, dst);
      ok, newTotal := AddCtas(totalCtas, ShardBytes(count, l.world, l.dtypeSize, dst));
    }
  }

  method FastReduceScatterEligible(group: Group, l: Launch, count: nat) returns (ok: bool)
    requires Fits(l, count)
    ensures ok <==> RsEligible(group, l, count)
  {
    if !Guards(group, l, count) {
      return false;
    }
    ok := CheckDestinations(l, count);
  }

  /** With two ranks or more there is a shard to send. */
  lemma SomeCtas(l: Launch, count: nat)
    requires l.world >= 2 && l.dtypeSize > 0
    requires forall r: nat :: r < l.world ==> RsShardOk(l, count, r)
    ensures RsCtas(l, count, l.world) > 0
  {
    var other := if l.rank == 0 then 1 else 0;
    assert RsShardOk(l, count, other);
    MulPos(ShareCount(count, l.world, other), l.dtypeSize);
    CtasPositive(ShardBytes(count, l.world, l.dtypeSize, other));
    RsCtasMonotone(l, count, other + 1, l.world);
  }

  // ---------- what reduce-scatter eligibility implies ----------

  /** Two shards that differ by one element are not both multiples of 16 bytes, unless one element is. */
  lemma EqualShards(count: nat, world: nat, dtypeSize: nat)
    requires world >= 2 && dtypeSize % 16 != 0
    requires forall r: nat :: r < world ==> ShardAligned(count, world, dtypeSize, r)
    ensures count % world == 0
  {
    if count % world != 0 {
      assert ShardAligned(count, world, dtypeSize, 0) && ShardAligned(count, world, dtypeSize, world - 1);
      NextMultiple(count / world, dtypeSize);
    }
  }

  lemma NextMultiple(base: nat, d: nat)
    requires d % 16 != 0
    ensures base * d % 16 != 0 || (base + 1) * d % 16 != 0
  {
  }

  /** With equal shards the CTA total is one term per other rank. */
  lemma {:induction false} UniformCtas(l: Launch, count: nat, n: nat, others: nat)
    requires l.world > 0 && count % l.world == 0 && n <= l.world
    requires others == if 0 <= l.rank < n then n - 1 else n
    ensures RsCtas(l, count, n) == others * Ctas(ShardBytes(count, l.world, l.dtypeSize, 0))
    decreases n
  {
    if n > 0 {
      UniformCtas(l, count, n - 1, if n - 1 == l.rank then others else others - 1);
      MulSucc(others - 1, Ctas(ShardBytes(count, l.world, l.dtypeSize, 0)));
    }
  }

  /** The peers cannot cover every rank number, so the rank itself is one of them. */
  lemma RankInRange(group: Group, l: Launch, count: nat)
    requires RsEligible(group, l, count)
    ensures 0 <= l.rank < l.world
  {
    if l.rank >= l.world {
      forall r: nat | r < l.world ensures HasPeer(l, r) {
        assert RsShardOk(l, count, r);
      }
      PeersTooFew(l);
    }
  }

  ghost predicate HasPeer(l: Launch, rank: int) {
    exists i: nat :: FirstPeerIs(l, rank, i)
  }

  ghost function PeerOf(l: Launch, rank: int): (i: nat)
    requires HasPeer(l, rank)
    ensures FirstPeerIs(l, rank, i)
  {
    var i: nat :| FirstPeerIs(l, rank, i);
    i
  }

  /** world - 1 peers do not cover world ranks. */
  lemma PeersTooFew(l: Launch)
    requires l.world > 0 && l.peerCount == l.world - 1
    ensures exists r: nat :: r < l.world && !HasPeer(l, r)
  {
    if forall r: nat :: r < l.world ==> HasPeer(l, r) {
      var firsts := seq(l.world, r requires 0 <= r < l.world => PeerOf(l, r) as int);
      forall r, q | 0 <= r < q < l.world ensures firsts[r] != firsts[q] {
        assert FirstPeerIs(l, r, firsts[r]) && FirstPeerIs(l, q, firsts[q]);
      }
      forall r | 0 <= r < l.world ensures 0 <= firsts[r] < l.world - 1 {
        assert FirstPeerIs(l, r, firsts[r]);
      }
      Pigeonhole(firsts, l.world - 1);
    }
  }

  /** For the element sizes the library supports, an eligible reduce-scatter splits evenly and sends
      one equal shard to each of the other ranks. */
  lemma EligibleIsEven(group: Group, l: Launch, count: nat)
    requires RsEligible(group, l, count) && l.dtypeSize % 16 != 0
    ensures count % l.world == 0
    ensures RsCtas(l, count, l.world) == (l.world - 1) * Ctas(ShardBytes(count, l.world, l.dtypeSize, 0))
  {
    forall r: nat | r < l.world ensures ShardAligned(count, l.world, l.dtypeSize, r) {
      assert RsShardOk(l, count, r);
    }
    EqualShards(count, l.world, l.dtypeSize);
    RankInRange(group, l, count);
    UniformCtas(l, count, l.world, l.world - 1);
  }

  // ---------- the decision in plain terms ----------

  /** The first peer entry of a rank has a pointer that is set and 16-byte aligned. */
  ghost predicate AlignedPeer(l: Launch, rank: int) {
    exists i: nat :: NamesFirst(l, rank, i) && l.peers[i].ptr != 0 && l.peers[i].ptr % 16 == 0
  }

  predicate NamesFirst(l: Launch, rank: int, i: nat) {
    i < l.peerCount && i < |l.peers| && l.peers[i].rank == rank && forall k :: 0 <= k < i ==> l.peers[k].rank != rank
  }

  /** t tasks of 64 KiB hold the bytes, and t - 1 do not. */
  predicate InTasks(bytes: int, t: int) {
    (t - 1) * 65536 < bytes <= t * 65536
  }

  /** Two to five ranks with peer-to-peer access that work in place on a buffer of so many elements. */
  ghost predicate PlainGuards(group: Group, l: Launch, count: nat) {
    && group.Group? && group.allPeerToPeer && group.numDevices == l.world && 2 <= l.world <= 5
    && 0 <= l.rank && l.peerCount == l.world - 1 && !l.outOfPlace && l.epoch > 0
    && l.dtypeSize > 0 && count > 0 && l.bytes == count * l.dtypeSize && l.localPtr != 0
  }

  lemma GuardsArePlain(group: Group, l: Launch, count: nat)
    requires Fits(l, count)
    ensures Guards(group, l, count) <==> PlainGuards(group, l, count)
  {
    if PlainGuards(group, l, count) {
      CountFits(count, l.dtypeSize);
    }
  }

  lemma CountFits(count: nat, dtypeSize: nat)
    requires dtypeSize > 0 && count * dtypeSize < SIZE_LIMIT
    ensures count <= (SIZE_LIMIT - 1) / dtypeSize
  {
    DivBounds(SIZE_LIMIT - 1, dtypeSize);
    if count > (SIZE_LIMIT - 1) / dtypeSize {
      MulLe((SIZE_LIMIT - 1) / dtypeSize + 1, count, dtypeSize);
    }
  }

  /** Equal shards of whole 16-byte units, on aligned pointers, of at most six tasks for all other ranks together. */
  ghost predicate PlainReduceScatter(group: Group, l: Launch, count: nat, shard: nat, t: nat) {
    && PlainGuards(group, l, count) && l.rank < l.world
    && shard * l.world == l.bytes && shard % 16 == 0 && count % l.world == 0
    && l.localPtr % 16 == 0 && (forall r: nat :: r < l.world && r != l.rank ==> AlignedPeer(l, r))
    && InTasks(shard, t) && (l.world - 1) * t <= 6
  }

  lemma EvenShards(count: nat, world: nat, dtypeSize: nat, rank: nat, share: nat, bytes: nat)
    requires world > 0 && count == share * world && bytes == share * dtypeSize
    ensures ShareCount(count, world, rank) == share
    ensures ShardBytes(count, world, dtypeSize, rank) == bytes && OffsetBytes(count, world, dtypeSize, rank) == rank * bytes
  {
    DivModUnique(count, share, 0, world);
    MulAssoc(rank, dtypeSize, share);
    assert rank * share * dtypeSize == rank * (share * dtypeSize);
  }

  lemma TasksAre(bytes: nat, t: nat)
    ensures InTasks(bytes, t) <==> Ctas(bytes) == t
  {
    var n: int := t;
    CeilDivLeast(bytes, TASK_BYTES, n);
    CeilDivLeast(bytes, TASK_BYTES, n - 1);
  }

  lemma MultipleOf16(r: nat, bytes: nat)
    requires bytes % 16 == 0
    ensures r * bytes % 16 == 0
  {
    var q := bytes / 16;
    assert r * (q * 16) == (r * q) * 16;
  }

  lemma PeerAlignedIs(l: Launch, rank: int, offset: nat)
    requires offset % 16 == 0
    ensures PeerAligned(l, rank, offset) <==> AlignedPeer(l, rank)
  {
    forall i: nat | i < |l.peers| ensures Aligned(l.peers[i].ptr, offset) <==> l.peers[i].ptr % 16 == 0 {
      AlignedIs(l.peers[i].ptr, offset);
    }
    forall i: nat ensures FirstPeerIs(l, rank, i) <==> NamesFirst(l, rank, i) {
    }
  }

  lemma ShardOkIsPlain(l: Launch, count: nat, r: nat, share: nat, bytes: nat)
    requires 0 < l.world && r < l.world && l.dtypeSize > 0 && share > 0
    requires count == share * l.world && bytes == share * l.dtypeSize
    ensures RsShardOk(l, count, r) ==> bytes % 16 == 0
    ensures bytes % 16 == 0 ==> (RsShardOk(l, count, r) <==> l.localPtr % 16 == 0 && (r != l.rank ==> AlignedPeer(l, r)))
  {
    EvenShards(count, l.world, l.dtypeSize, r, share, bytes);
    if bytes % 16 == 0 {
      MultipleOf16(r, bytes);
      AlignedIs(l.localPtr, r * bytes);
      PeerAlignedIs(l, r, r * bytes);
    }
  }

  /** The decision for the element sizes that the library supports. */
  lemma ReduceScatterIsPlain(group: Group, l: Launch, count: nat)
    requires Fits(l, count) && l.dtypeSize % 16 != 0
    ensures RsEligible(group, l, count) <==> exists shard: nat, t: nat :: PlainReduceScatter(group, l, count, shard, t)
  {
    GuardsArePlain(group, l, count);
    if RsEligible(group, l, count) {
      EligibleIsEven(group, l, count);
      var share, shard, t := EvenShare(l, count);
      RankInRange(group, l, count);
      assert RsShardOk(l, count, 0);
      ShardOkIsPlain(l, count, 0, share, shard);
      forall r: nat | r < l.world && r != l.rank ensures AlignedPeer(l, r) {
        assert RsShardOk(l, count, r);
        ShardOkIsPlain(l, count, r, share, shard);
      }
      assert PlainReduceScatter(group, l, count, shard, t);
    }
    if shard: nat, t: nat :| PlainReduceScatter(group, l, count, shard, t) {
      PlainIsEligible(group, l, count, shard, t);
    }
  }

  /** The equal share of a count that the world size divides: elements, bytes and tasks. */
  lemma EvenShare(l: Launch, count: nat) returns (share: nat, shard: nat, t: nat)
    requires l.world > 0 && l.dtypeSize > 0 && count > 0 && count % l.world == 0 && l.bytes == count * l.dtypeSize
    ensures share > 0 && count == share * l.world && shard == share * l.dtypeSize && shard * l.world == l.bytes
    ensures InTasks(shard, t) && t == Ctas(ShardBytes(count, l.world, l.dtypeSize, 0))
  {
    DivBounds(count, l.world);
    share := count / l.world;
    MulNonneg(share, l.dtypeSize);
    shard := share * l.dtypeSize;
    Exchange(share, l.dtypeSize, l.world);
    EvenShards(count, l.world, l.dtypeSize, 0, share, shard);
    t := Ctas(shard);
    TasksAre(shard, t);
  }

  lemma Exchange(a: int, b: int, c: int)
    ensures a * b * c == a * c * b
  {
  }

  lemma PlainIsEligible(group: Group, l: Launch, count: nat, shard: nat, t: nat)
    requires Fits(l, count) && PlainReduceScatter(group, l, count, shard, t)
    ensures RsEligible(group, l, count)
  {
    GuardsArePlain(group, l, count);
    var share, shard', t' := EvenShare(l, count);
    PairUnique(shard, 0, shard', 0, l.world);
    TasksAre(shard, t);
    TasksAre(shard, t');
    forall r: nat | r < l.world ensures RsShardOk(l, count, r) {
      ShardOkIsPlain(l, count, r, share, shard);
    }
    UniformCtas(l, count, l.world, l.world - 1);
  }

  // ---------- agreement of the ranks ----------

  /** Entry i of rank a's peer arrays names another rank, and its pointer is that rank's buffer up to
      a multiple of 16 bytes (a mapping of the same allocation). */
  ghost predicate PeerMatches(ls: seq<Launch>, a: nat, i: nat)
    requires a < |ls| && i < |ls[a].peers|
  {
    var p := ls[a].peers[i];
    && 0 <= p.rank < |ls| && p.rank != a
    && p.ptr != 0 && p.publishSignal != 0 && p.waitSignal != 0
    && p.ptr % 16 == ls[p.rank].localPtr % 16
  }

  /** The launch states of one collective call: ls[a] is what rank a sees. */
  ghost predicate Consistent(ls: seq<Launch>, count: nat, shared: Launch) {
    && |ls| == shared.world && |ls| >= 1
    && forall a: nat :: a < |ls| ==>
         && Fits(ls[a], count)
         && ls[a].rank == a && ls[a].localPtr != 0
         && ls[a].world == shared.world && ls[a].outOfPlace == shared.outOfPlace
         && ls[a].dtypeSize == shared.dtypeSize && ls[a].bytes == shared.bytes && ls[a].epoch == shared.epoch
         && ls[a].peerCount == |ls| - 1 <= |ls[a].peers|
         && (forall i: nat :: i < ls[a].peerCount ==> PeerMatches(ls, a, i))
         && (forall i: nat, j: nat :: i < j < ls[a].peerCount ==> ls[a].peers[i].rank != ls[a].peers[j].rank)
  }

  /** Distinct peers leave no other rank out. */
  lemma EveryRankHasPeer(ls: seq<Launch>, count: nat, shared: Launch, a: nat, r: nat) returns (i: nat)
    requires Consistent(ls, count, shared) && a < |ls| && r < |ls| && r != a
    ensures FirstPeerIs(ls[a], r, i) && PeerMatches(ls, a, i)
  {
    var l := ls[a];
    var ranks := seq(|ls|, k requires 0 <= k < |ls| => if k < l.peerCount then l.peers[k].rank else a);
    forall k | 0 <= k < |ls| ensures 0 <= ranks[k] < |ls| {
      if k < l.peerCount {
        assert PeerMatches(ls, a, k);
      }
    }
    forall k, q | 0 <= k < q < |ls| ensures ranks[k] != ranks[q] {
      assert PeerMatches(ls, a, k);
    }
    i := PermutationReaches(ranks, r);
  }

  /** The first checks, on what all ranks share. */
  predicate SharedGuards(group: Group, count: nat, shared: Launch) {
    && group.Group? && group.allPeerToPeer && !shared.outOfPlace
    && shared.world >= 2 && shared.world == group.numDevices && shared.world - 1 <= MAX_FANOUT_DSTS
    && shared.dtypeSize != 0 && shared.bytes != 0 && count != 0
    && count <= (SIZE_LIMIT - 1) / shared.dtypeSize && count * shared.dtypeSize == shared.bytes && shared.epoch > 0
  }

  /** What every rank decides: nothing here depends on the rank. */
  ghost predicate RsVerdict(group: Group, ls: seq<Launch>, count: nat, shared: Launch)
    requires shared.world > 0
  {
    && SharedGuards(group, count, shared)
    && (forall r: nat :: r < shared.world ==> ShardAligned(count, shared.world, shared.dtypeSize, r))
    && (forall r: nat :: r < |ls| ==> ls[r].localPtr % 16 == 0)
    && count % shared.world == 0
    && (shared.world - 1) * Ctas(ShardBytes(count, shared.world, shared.dtypeSize, 0)) <= REDUCE_SCATTER_MAX_CTAS
  }

  lemma ShardOkIff(ls: seq<Launch>, count: nat, shared: Launch, a: nat, r: nat)
    requires Consistent(ls, count, shared) && a < |ls| && r < |ls|
    ensures RsShardOk(ls[a], count, r) <==>
            ShardAligned(count, shared.world, shared.dtypeSize, r) && ls[a].localPtr % 16 == 0 && ls[r].localPtr % 16 == 0
  {
    if ShardAligned(count, shared.world, shared.dtypeSize, r) {
      var offset := OffsetBytes(count, shared.world, shared.dtypeSize, r);
      AlignedIs(ls[a].localPtr, offset);
      if r != a {
        var i := EveryRankHasPeer(ls, count, shared, a, r);
        AlignedIs(ls[a].peers[i].ptr, offset);
        assert PeerAligned(ls[a], r, offset) <==> ls[r].localPtr % 16 == 0;
      }
    }
  }

  lemma RsDecision(group: Group, ls: seq<Launch>, count: nat, shared: Launch, a: nat)
    requires Consistent(ls, count, shared) && a < |ls| && shared.dtypeSize % 16 != 0
    ensures RsEligible(group, ls[a], count) <==> RsVerdict(group, ls, count, shared)
  {
    forall r: nat | r < |ls| {
      ShardOkIff(ls, count, shared, a, r);
    }
    if RsEligible(group, ls[a], count) {
      EligibleIsEven(group, ls[a], count);
      forall r: nat | r < |ls| ensures ShardAligned(count, shared.world, shared.dtypeSize, r) && ls[r].localPtr % 16 == 0 {
        assert RsShardOk(ls[a], count, r);
      }
    }
    if RsVerdict(group, ls, count, shared) {
      UniformCtas(ls[a], count, |ls|, |ls| - 1);
      forall r: nat | r < |ls| ensures RsShardOk(ls[a], count, r) {
        assert ShardAligned(count, shared.world, shared.dtypeSize, r);
      }
    }
  }

  /** All ranks take the fast reduce-scatter, or none does: although each rank counts different shards. */
  lemma ReduceScatterAgrees(group: Group, ls: seq<Launch>, count: nat, shared: Launch, a: nat, b: nat)
    requires Consistent(ls, count, shared) && a < |ls| && b < |ls| && shared.dtypeSize % 16 != 0
    ensures RsEligible(group, ls[a], count) <==> RsEligible(group, ls[b], count)
  {
    RsDecision(group, ls, count, shared, a);
    RsDecision(group, ls, count, shared, b);
  }

  // ---------- 16-byte elements ----------

  const ODD_COUNT: nat := 49153
  const LONG_SHARD: nat := 393232
  const SHORT_SHARD: nat := 393216

  /** The launch states of a two-rank call with 16-byte elements, all buffers at one alignment. */
  ghost function PairLaunch(rank: nat): (l: Launch)
    requires rank < 2
  {
    var other := Peer(1 - rank, 0x1000, 1, 1);
    var unused := Peer(0, 0, 0, 0);
    Launch(0x1000, false, rank, 2, [other, unused, unused, unused], 1, 16, LONG_SHARD + SHORT_SHARD, 1)
  }

  lemma PairShards()
    ensures ShareCount(ODD_COUNT, 2, 0) == 24577 && ShareCount(ODD_COUNT, 2, 1) == 24576
    ensures ShardBytes(ODD_COUNT, 2, 16, 0) == LONG_SHARD && OffsetBytes(ODD_COUNT, 2, 16, 0) == 0
    ensures ShardBytes(ODD_COUNT, 2, 16, 1) == SHORT_SHARD && OffsetBytes(ODD_COUNT, 2, 16, 1) == LONG_SHARD
    ensures Ctas(LONG_SHARD) == 7 && Ctas(SHORT_SHARD) == 6
  {
  }

  lemma PairShardOk(r: nat)
    requires r < 2
    ensures RsShardOk(PairLaunch(0), ODD_COUNT, r)
  {
    PairShards();
    if r == 1 {
      assert FirstPeerIs(PairLaunch(0), 1, 0);
      assert PairLaunch(0).peers[0].ptr == 0x1000;
    }
  }

  lemma PairCtas(rank: nat)
    requires rank < 2
    ensures RsCtas(PairLaunch(rank), ODD_COUNT, 2) == if rank == 0 then 6 else 7
  {
    PairShards();
    assert RsCtas(PairLaunch(rank), ODD_COUNT, 0) == 0;
    assert RsCtas(PairLaunch(rank), ODD_COUNT, 1) == if rank == 0 then 0 else 7;
  }

  lemma PairConsistent()
    ensures Consistent([PairLaunch(0), PairLaunch(1)], ODD_COUNT, PairLaunch(0))
  {
    var ls := [PairLaunch(0), PairLaunch(1)];
    forall a: nat, i: nat | a < 2 && i < 1 ensures PeerMatches(ls, a, i) {
      assert ls[a].peers[0] == Peer(1 - a, 0x1000, 1, 1);
    }
  }

  /** The element-size condition of the agreement is needed: with 16-byte elements and an odd count,
      rank 0 sends the short shard and takes the fast path, rank 1 sends the long one and does not. */
  lemma SixteenByteElementsDisagree()
    ensures Consistent([PairLaunch(0), PairLaunch(1)], ODD_COUNT, PairLaunch(0))
    ensures RsEligible(Group(true, 2), PairLaunch(0), ODD_COUNT)
    ensures !RsEligible(Group(true, 2), PairLaunch(1), ODD_COUNT)
  {
    PairConsistent();
    PairCtas(0);
    PairCtas(1);
    forall r: nat | r < 2 ensures RsShardOk(PairLaunch(0), ODD_COUNT, r) {
      PairShardOk(r);
    }
    assert Guards(Group(true, 2), PairLaunch(0), ODD_COUNT);
  }
}
