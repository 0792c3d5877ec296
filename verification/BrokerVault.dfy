/** The shared vault and a rank's copies in and out of it, as code on the shared bytes. */
module BrokerVault {
  import opened Arith
  import opened BrokerCalls
  import Barrier
  import opened ExchangeData

  datatype Status = Ok | InvalidWorldSize | WorldSizeMismatch | InvalidSize

  class Vault {
    const worldSize: nat
    var barrierCount: nat
    var barrierGeneration: nat
    const data: array<byte>

    ghost predicate Valid()
      reads this
    {
      worldSize > 0 && data.Length == worldSize * VAULT_SIZE_PER_RANK
    }

    constructor (localWorldSize: nat)
      requires localWorldSize > 0
      ensures Valid() && worldSize == localWorldSize && barrierCount == 0 && barrierGeneration == 0
      ensures data.Length == localWorldSize * 256
      ensures fresh(data) && forall i :: 0 <= i < data.Length ==> data[i] == 0
    {
      worldSize := localWorldSize;
      barrierCount, barrierGeneration := 0, 0;
      data := new byte[localWorldSize * VAULT_SIZE_PER_RANK](i => 0);
    }

    /** The critical section of `sync` from taking the mutex to broadcasting or going to sleep.
        The vault fields move as the barrier's Locked step says; a wrong world size changes nothing. */
    method Arrive(localWorldSize: int, ghost b: Barrier.State, ghost r: nat)
      returns (status: Status, generation: nat, last: bool)
      requires Valid() && Barrier.Shape(worldSize, b) && r < worldSize && b.pc[r].Locked?
      requires b.count == barrierCount && b.generation == barrierGeneration
      modifies this`barrierCount, this`barrierGeneration
      ensures status == if localWorldSize <= 0 then InvalidWorldSize
                        else if localWorldSize != worldSize then WorldSizeMismatch else Ok
      ensures status != Ok ==> barrierCount == old(barrierCount) && barrierGeneration == old(barrierGeneration)
      ensures status == Ok ==>
                var b' := Barrier.AdvanceRank(worldSize, b, r);
                && barrierCount == b'.count && barrierGeneration == b'.generation
                && (last <==> b'.pc[r].Leaving?) && (!last ==> b'.pc[r] == Barrier.Waiting(generation))
    {
      status, generation, last := Ok, barrierGeneration, false;
      if localWorldSize <= 0 {
        return InvalidWorldSize, generation, last;
      }
      if worldSize != localWorldSize {
        return WorldSizeMismatch, generation, last;
      }
      barrierCount := barrierCount + 1;
      if barrierCount == localWorldSize {
        barrierCount := 0;
        barrierGeneration := barrierGeneration + 1;
        last := true;
      }
    }

    /** The loop test after a wakeup: sleep again or leave. */
    method Recheck(generation: nat, ghost b: Barrier.State, ghost r: nat) returns (again: bool)
      requires Valid() && Barrier.Shape(worldSize, b) && r < worldSize && b.pc[r] == Barrier.Rechecking(generation)
      requires b.generation == barrierGeneration
      ensures Barrier.AdvanceRank(worldSize, b, r).pc[r] ==
              if again then Barrier.Waiting(generation) else Barrier.Leaving
    {
      again := generation == barrierGeneration;
    }

    /** The vault is the one of a protocol state. */
    ghost predicate Describes(s: Script, st: State)
      reads this, data
    {
      s.Valid() && Shape(s, st) && s.n == worldSize && st.vault == data[..]
    }

    /** The first memcpy of `exchange_data`: rank's bytes into its slot, nothing else touched.  For a rank
        that passes them to its current call, these are its write steps of the protocol. */
    method CopyIn(rank: nat, src: array<byte>, ghost s: Script, ghost st: State) returns (status: Status)
      requires Valid() && rank < worldSize && src != data
      requires Describes(s, st) && st.written[rank] == 0
      requires 0 < src.Length <= VAULT_SIZE_PER_RANK ==> src[..] == s.src(rank, CallOf(s, st.b, rank))
      modifies data
      ensures status == Ok ==>
                src.Length == s.size(CallOf(s, st.b, rank)) && Describes(s, WriteBytes(s, st, rank, src.Length))
      ensures status == if src.Length == 0 || src.Length > 256 then InvalidSize else Ok
      ensures status != Ok ==> data[..] == old(data[..])
      ensures status == Ok ==> forall i :: 0 <= i < data.Length ==>
                data[i] == if rank * 256 <= i < rank * 256 + src.Length then src[i - rank * 256] else old(data[i])
    {
      var size := src.Length;
      if size == 0 || size > VAULT_SIZE_PER_RANK {
        return InvalidSize;
      }
      var base := rank * VAULT_SIZE_PER_RANK;
      var j := 0;
      while j < size
        invariant j <= size
        invariant forall i :: 0 <= i < data.Length ==>
                    data[i] == if base <= i < base + j then src[i - base] else old(data[i])
      {
        data[base + j] := src[j];
        j := j + 1;
      }
      WriteBytesCopy(s, st, rank, size);
      assert data[..] == WriteBytes(s, st, rank, size).vault;
      status := Ok;
    }

    /** Vault position of byte p of a packed answer. */
    function Source(p: nat, size: nat): int
      requires size > 0
    {
      p / size * VAULT_SIZE_PER_RANK + p % size
    }

    lemma SourceOf(r: nat, j: nat, size: nat, p: nat)
      requires Valid() && r < worldSize && j < size <= VAULT_SIZE_PER_RANK && p == r * size + j
      ensures Source(p, size) == r * VAULT_SIZE_PER_RANK + j
      ensures 0 <= Source(p, size) < data.Length
    {
      DivModUnique(p, r, j, size);
      PairBound(r, j, worldSize, VAULT_SIZE_PER_RANK);
    }

    lemma SourceIsSlot(s: Script, st: State, p: nat, size: nat)
      requires Valid() && Describes(s, st) && 0 < size <= VAULT_SIZE_PER_RANK && p / size < worldSize
      requires 0 <= p / size && 0 <= Source(p, size) < data.Length
      ensures data[Source(p, size)] == Slot(s, st, p / size, p % size)
    {
    }

    lemma PackedIsRead(dst: seq<byte>, size: nat, total: nat, s: Script, st: State, rank: nat)
      requires Valid() && 0 < size <= VAULT_SIZE_PER_RANK && |dst| == total == worldSize * size
      requires Describes(s, st) && rank < worldSize && st.dst[rank] == [] && size == s.size(CallOf(s, st.b, rank))
      requires forall p :: 0 <= p < total ==> 0 <= Source(p, size) < data.Length && dst[p] == data[Source(p, size)]
      ensures dst == ReadBytes(s, st, rank, total).dst[rank]
    {
      forall p: nat | p < total ensures dst[p] == ReadBytes(s, st, rank, total).dst[rank][p] {
        ReadBytesCopy(s, st, rank, size, total, p);
        SourceIsSlot(s, st, p, size);
      }
    }

    /** The second loop: every rank's slot, packed one after the other. */
    method PackSlots(size: nat) returns (dst: array<byte>)
      requires Valid() && 0 < size <= VAULT_SIZE_PER_RANK
      ensures fresh(dst) && dst.Length == worldSize * size
      ensures forall p :: 0 <= p < dst.Length ==>
                0 <= Source(p, size) < data.Length && dst[p] == data[Source(p, size)]
      ensures forall r: nat, j: nat :: r < worldSize && j < size ==> SlotByte(dst, size, r, j)
    {
      dst := new byte[worldSize * size](i => 0);
      var r := 0;
      ghost var done: nat := 0;
      while r < worldSize
        invariant r <= worldSize && done == r * size <= dst.Length
        invariant forall p :: 0 <= p < done ==>
                    0 <= Source(p, size) < data.Length && dst[p] == data[Source(p, size)]
      {
        SlotRoom(r, size, done);
        CopySlot(dst, r * size, r * VAULT_SIZE_PER_RANK, size);
        forall p | done <= p < done + size
          ensures 0 <= Source(p, size) < data.Length && dst[p] == data[Source(p, size)]
        {
          SourceOf(r, p - done, size, p);
        }
        r, done := r + 1, done + size;
      }
      forall r: nat, j: nat | r < worldSize && j < size ensures SlotByte(dst, size, r, j) {
        PairBound(r, j, worldSize, size);
        SourceOf(r, j, size, r * size + j);
      }
    }

    /** Byte j of rank r's slot is byte r * size + j of the answer. */
    ghost predicate SlotByte(dst: array<byte>, size: nat, r: nat, j: nat)
      reads dst, data
    {
      && 0 <= r * size + j < dst.Length && 0 <= r * 256 + j < data.Length
      && dst[r * size + j] == data[r * 256 + j]
    }

    /** Rank r's slot fits the vault, and its bytes fit the answer. */
    lemma SlotRoom(r: nat, size: nat, done: nat)
      requires Valid() && r < worldSize && 0 < size <= VAULT_SIZE_PER_RANK && done == r * size
      ensures done + size <= worldSize * size && (r + 1) * size == done + size
      ensures r * VAULT_SIZE_PER_RANK + size <= data.Length
    {
      MulLe(r + 1, worldSize, size);
      PairBound(r, VAULT_SIZE_PER_RANK - 1, worldSize, VAULT_SIZE_PER_RANK);
    }

    /** The same, for a rank that reads its current call: these are its read steps of the protocol. */
    method CopyOut(size: nat, ghost s: Script, ghost st: State, ghost rank: nat) returns (dst: array<byte>)
      requires Valid() && 0 < size <= VAULT_SIZE_PER_RANK
      requires Describes(s, st) && rank < worldSize && st.dst[rank] == [] && size == s.size(CallOf(s, st.b, rank))
      ensures fresh(dst) && dst.Length == worldSize * size
      ensures dst[..] == ReadBytes(s, st, rank, dst.Length).dst[rank]
    {
      dst := PackSlots(size);
      PackedIsRead(dst[..], size, dst.Length, s, st, rank);
    }

    /** One memcpy of the second loop. */
    method CopySlot(dst: array<byte>, to: nat, from: nat, size: nat)
      requires dst != data && to + size <= dst.Length && from + size <= data.Length
      modifies dst
      ensures forall i :: 0 <= i < dst.Length ==>
                dst[i] == if to <= i < to + size then data[from + (i - to)] else old(dst[i])
    {
      var j := 0;
      while j < size
        invariant j <= size
        invariant forall i :: 0 <= i < dst.Length ==>
                    dst[i] == if to <= i < to + j then data[from + (i - to)] else old(dst[i])
      {
        dst[to + j] := data[from + j];
        j := j + 1;
      }
    }
  }
}
