/**
 `exchange_data`: an all-gather through a shared vault, byte by byte, between three barriers.
 Ranks run call after call without any other synchronisation.
 */
module ExchangeData {
  import opened Arith
  import opened BrokerCalls
  import Barrier

  datatype State = State(
    b: Barrier.State,
    vault: seq<byte>,       // the shared bytes, VAULT_SIZE_PER_RANK per rank
    written: seq<nat>,     // bytes of its own slot a rank has copied in since its last barrier
    dst: seq<seq<byte>>)    // bytes a rank has copied out in its latest call

  datatype Step = Sync(rank: nat) | Spurious(rank: nat) | Write(rank: nat) | Read(rank: nat)

  /** The rank's call, and its phase between two barriers. */
  function CallOf(s: Script, b: Barrier.State, r: nat): nat
    requires r < |b.returned|
  {
    Current(s, b.returned[r])
  }

  predicate Writing(s: Script, b: Barrier.State, r: nat)
    requires r < |b.returned|
  {
    WriteAt(s, b.returned[r])
  }

  predicate Reading(s: Script, b: Barrier.State, r: nat)
    requires r < |b.returned|
  {
    ReadAt(s, b.returned[r])
  }

  ghost predicate Shape(s: Script, st: State) {
    && Barrier.Shape(s.n, st.b)
    && |st.vault| == s.n * VAULT_SIZE_PER_RANK && |st.written| == s.n && |st.dst| == s.n
  }

  /** Its copies are finished, so the rank may call sync. */
  predicate CopiesDone(s: Script, st: State, r: nat)
    requires r < s.n && |st.b.returned| == s.n && |st.written| == s.n && |st.dst| == s.n
  {
    var k := CallOf(s, st.b, r);
    && (Writing(s, st.b, r) ==> st.written[r] >= s.size(k))
    && (Reading(s, st.b, r) ==> |st.dst[r]| >= s.n * s.size(k))
  }

  /** The p-th byte of the concatenated answer of call k: byte p % size of rank p / size. */
  function Gathered(s: Script, k: nat, p: nat): byte
    requires s.Valid() && p < s.n * s.size(k)
  {
    DivLess(p, s.n, s.size(k));
    s.src(p / s.size(k), k)[p % s.size(k)]
  }

  lemma SlotFits(s: Script, q: nat, j: nat)
    requires q < s.n && j < VAULT_SIZE_PER_RANK
    ensures 0 <= q * VAULT_SIZE_PER_RANK + j < s.n * VAULT_SIZE_PER_RANK
  {
  }

  /** Byte j of rank q's slot. */
  function Slot(s: Script, st: State, q: nat, j: nat): byte
    requires Shape(s, st) && q < s.n && j < VAULT_SIZE_PER_RANK
  {
    SlotFits(s, q, j);
    st.vault[q * VAULT_SIZE_PER_RANK + j]
  }

  /** One byte of `memcpy` into the rank's own slot. */
  function WriteByte(s: Script, st: State, r: nat): State
    requires s.Valid() && Shape(s, st) && r < s.n
    requires st.written[r] < s.size(CallOf(s, st.b, r))
  {
    var k, j := CallOf(s, st.b, r), st.written[r];
    SlotFits(s, r, j);
    st.(vault := st.vault[r * VAULT_SIZE_PER_RANK + j := s.src(r, k)[j]], written := st.written[r := j + 1])
  }

  /** One byte of the loop that copies every slot out, rank after rank. */
  function ReadByte(s: Script, st: State, r: nat): State
    requires s.Valid() && Shape(s, st) && r < s.n
    requires |st.dst[r]| < s.n * s.size(CallOf(s, st.b, r))
  {
    var p, size := |st.dst[r]|, s.size(CallOf(s, st.b, r));
    DivLess(p, s.n, size);
    st.(dst := st.dst[r := st.dst[r] + [Slot(s, st, p / size, p % size)]])
  }

  /** A barrier step; a rank that returns starts its next phase with nothing copied. */
  function SyncStep(s: Script, st: State, step: Barrier.Step): State
    requires Shape(s, st)
  {
    var b := Barrier.Apply(s.n, st.b, step);
    var r := step.rank;
    if r < s.n && step.Advance? && st.b.pc[r].Leaving? then
      st.(b := b, written := st.written[r := 0],
          dst := if Reading(s, b, r) then st.dst[r := []] else st.dst)
    else
      st.(b := b)
  }

  function Apply(s: Script, st: State, step: Step): State
    requires s.Valid() && Shape(s, st)
  {
    var r := step.rank;
    if r >= s.n then st
    else match step
      case Sync(_) =>
        if st.b.pc[r].Outside? && !CopiesDone(s, st, r) then st else SyncStep(s, st, Barrier.Advance(r))
      case Spurious(_) => SyncStep(s, st, Barrier.Spurious(r))
      case Write(_) =>
        if st.b.pc[r].Outside? && Writing(s, st.b, r) && st.written[r] < s.size(CallOf(s, st.b, r))
        then WriteByte(s, st, r) else st
      case Read(_) =>
        if st.b.pc[r].Outside? && Reading(s, st.b, r) && |st.dst[r]| < s.n * s.size(CallOf(s, st.b, r))
        then ReadByte(s, st, r) else st
  }

  // ---------- invariant ----------

  /** How many bytes of call k rank q's slot is known to hold. */
  ghost predicate SlotHolds(s: Script, st: State, q: nat, k: nat, bytes: nat)
    requires s.Valid() && Shape(s, st) && q < s.n
  {
    bytes <= s.size(k) && forall j :: 0 <= j < bytes ==> Slot(s, st, q, j) == s.src(q, k)[j]
  }

  ghost predicate SlotInv(s: Script, st: State, q: nat)
    requires s.Valid() && Shape(s, st) && q < s.n
  {
    && (Writing(s, st.b, q) ==> SlotHolds(s, st, q, CallOf(s, st.b, q), st.written[q]))
    && (Reading(s, st.b, q) ==> SlotHolds(s, st, q, CallOf(s, st.b, q), s.size(CallOf(s, st.b, q))))
    && (!st.b.pc[q].Outside? ==> CopiesDone(s, st, q))
  }

  ghost predicate DstHolds(s: Script, st: State, r: nat, k: nat)
    requires s.Valid() && Shape(s, st) && r < s.n
  {
    && |st.dst[r]| <= s.n * s.size(k)
    && forall p :: 0 <= p < |st.dst[r]| ==> st.dst[r][p] == Gathered(s, k, p)
  }

  /** dst holds the answer of the latest exchange, complete as soon as the rank moved past reading. */
  ghost predicate DstInv(s: Script, st: State, r: nat)
    requires s.Valid() && Shape(s, st) && r < s.n
  {
    if Reading(s, st.b, r) then DstHolds(s, st, r, CallOf(s, st.b, r))
    else match LastData(s, st.b.returned[r])
      case None => true
      case Some(k) => DstHolds(s, st, r, k) && |st.dst[r]| == s.n * s.size(k)
  }

  ghost predicate Inv(s: Script, st: State) {
    && s.Valid() && Shape(s, st) && Barrier.Inv(s.n, st.b)
    && (forall q :: 0 <= q < s.n ==> SlotInv(s, st, q))
    && (forall r :: 0 <= r < s.n ==> DstInv(s, st, r))
  }

  function Init(s: Script, vault: seq<byte>): State {
    State(Barrier.Init(s.n), vault, seq(s.n, r => 0), seq(s.n, r => []))
  }

  lemma InitInv(s: Script, vault: seq<byte>)
    requires s.Valid() && |vault| == s.n * VAULT_SIZE_PER_RANK
    ensures Inv(s, Init(s, vault))
  {
  }

  /** The heart of the protocol: while r reads call k, every slot holds exactly what its owner
      passed to call k - neither the previous call nor the next one. */
  lemma NoStaleSlot(s: Script, st: State, r: nat, q: nat)
    requires Inv(s, st) && r < s.n && q < s.n
    requires st.b.pc[r].Outside? && Reading(s, st.b, r)
    ensures SlotHolds(s, st, q, CallOf(s, st.b, r), s.size(CallOf(s, st.b, r)))
  {
    assert Barrier.RankInv(s.n, st.b, r) && Barrier.RankInv(s.n, st.b, q);
    assert SlotInv(s, st, q);
    NextPlace(s, st.b.returned[q]);
  }

  lemma ReadInv(s: Script, st: State, r: nat)
    requires Inv(s, st) && r < s.n && st.b.pc[r].Outside? && Reading(s, st.b, r)
    requires |st.dst[r]| < s.n * s.size(CallOf(s, st.b, r))
    ensures Inv(s, ReadByte(s, st, r))
  {
    var st' := ReadByte(s, st, r);
    var k, p := CallOf(s, st.b, r), |st.dst[r]|;
    DivLess(p, s.n, s.size(k));
    NoStaleSlot(s, st, r, p / s.size(k));
    forall q | 0 <= q < s.n ensures SlotInv(s, st', q) && DstInv(s, st', q) {
      assert SlotInv(s, st, q) && DstInv(s, st, q);
      SlotUnchanged(s, st, st', q);
    }
  }

  lemma SlotUnchanged(s: Script, st: State, st': State, q: nat)
    requires s.Valid() && Shape(s, st) && Shape(s, st') && q < s.n
    requires forall j :: 0 <= j < VAULT_SIZE_PER_RANK ==> Slot(s, st', q, j) == Slot(s, st, q, j)
    ensures forall k, bytes :: SlotHolds(s, st, q, k, bytes) ==> SlotHolds(s, st', q, k, bytes)
  {
  }

  lemma WriteFrame(s: Script, st: State, r: nat, q: nat, j: nat)
    requires s.Valid() && Shape(s, st) && r < s.n && q < s.n && j < VAULT_SIZE_PER_RANK
    requires st.written[r] < s.size(CallOf(s, st.b, r))
    ensures Slot(s, WriteByte(s, st, r), q, j) ==
            if q == r && j == st.written[r] then s.src(r, CallOf(s, st.b, r))[j] else Slot(s, st, q, j)
  {
  }

  lemma WriteInv(s: Script, st: State, r: nat)
    requires Inv(s, st) && r < s.n && st.b.pc[r].Outside? && Writing(s, st.b, r)
    requires st.written[r] < s.size(CallOf(s, st.b, r))
    ensures Inv(s, WriteByte(s, st, r))
  {
    var st' := WriteByte(s, st, r);
    forall q | 0 <= q < s.n ensures SlotInv(s, st', q) && DstInv(s, st', q) {
      assert SlotInv(s, st, q) && DstInv(s, st, q);
      forall j | 0 <= j < VAULT_SIZE_PER_RANK
        ensures Slot(s, st', q, j) ==
                if q == r && j == st.written[r] then s.src(r, CallOf(s, st.b, r))[j] else Slot(s, st, q, j)
      {
        WriteFrame(s, st, r, q, j);
      }
      if q != r {
        SlotUnchanged(s, st, st', q);
      }
    }
  }

  /** What a barrier step can do to a rank's phase: nothing, or one return with all copies done. */
  lemma SyncRank(s: Script, st: State, step: Barrier.Step, q: nat)
    requires s.Valid() && Shape(s, st) && q < s.n && step.rank < s.n
    ensures var b' := Barrier.Apply(s.n, st.b, step);
            && Barrier.Shape(s.n, b')
            && b'.returned[q] == st.b.returned[q] +
                 (if q == step.rank && step.Advance? && st.b.pc[q].Leaving? then 1 else 0)
            && (!b'.pc[q].Outside? && st.b.pc[q].Outside? ==> step == Barrier.Advance(q))
            && (step.Advance? && q == step.rank && st.b.pc[q].Leaving? ==> b'.pc[q].Outside?)
  {
  }

  lemma SyncSlotInv(s: Script, st: State, step: Barrier.Step, q: nat)
    requires Inv(s, st) && step.rank < s.n && q < s.n
    requires step.Advance? && st.b.pc[step.rank].Outside? ==> CopiesDone(s, st, step.rank)
    requires Shape(s, SyncStep(s, st, step))
    ensures SlotInv(s, SyncStep(s, st, step), q)
  {
    assert SlotInv(s, st, q);
    SyncRank(s, st, step, q);
    SlotUnchanged(s, st, SyncStep(s, st, step), q);
    NextPlace(s, st.b.returned[q]);
  }

  /** A return from a barrier: the answer is complete when the rank leaves its reading phase. */
  lemma ReturnDstInv(s: Script, st: State, st': State, q: nat)
    requires s.Valid() && Shape(s, st) && Shape(s, st') && q < s.n && DstInv(s, st, q) && CopiesDone(s, st, q)
    requires st'.b.returned[q] == st.b.returned[q] + 1
    requires st'.dst[q] == if Reading(s, st'.b, q) then [] else st.dst[q]
    ensures DstInv(s, st', q)
  {
    NextPlace(s, st.b.returned[q]);
  }

  lemma SyncDstInv(s: Script, st: State, step: Barrier.Step, q: nat)
    requires Inv(s, st) && step.rank < s.n && q < s.n && Shape(s, SyncStep(s, st, step))
    ensures DstInv(s, SyncStep(s, st, step), q)
  {
    var st' := SyncStep(s, st, step);
    assert SlotInv(s, st, q) && DstInv(s, st, q);
    SyncRank(s, st, step, q);
    if q == step.rank && step.Advance? && st.b.pc[q].Leaving? {
      ReturnDstInv(s, st, st', q);
    } else {
      assert st'.dst[q] == st.dst[q] && st'.b.returned[q] == st.b.returned[q];
    }
  }

  lemma SyncInv(s: Script, st: State, step: Barrier.Step)
    requires Inv(s, st) && step.rank < s.n
    requires step.Advance? && st.b.pc[step.rank].Outside? ==> CopiesDone(s, st, step.rank)
    ensures Inv(s, SyncStep(s, st, step))
  {
    var st' := SyncStep(s, st, step);
    Barrier.ApplyInv(s.n, st.b, step);
    forall q | 0 <= q < s.n ensures SlotInv(s, st', q) && DstInv(s, st', q) {
      SyncSlotInv(s, st, step, q);
      SyncDstInv(s, st, step, q);
    }
  }

  /** Every step of every rank keeps the invariant. */
  lemma ApplyInv(s: Script, st: State, step: Step)
    requires Inv(s, st)
    ensures Inv(s, Apply(s, st, step))
  {
    var r := step.rank;
    if r < s.n {
      match step
      case Sync(_) =>
        if !(st.b.pc[r].Outside? && !CopiesDone(s, st, r)) { SyncInv(s, st, Barrier.Advance(r)); }
      case Spurious(_) => SyncInv(s, st, Barrier.Spurious(r));
      case Write(_) =>
        if st.b.pc[r].Outside? && Writing(s, st.b, r) && st.written[r] < s.size(CallOf(s, st.b, r)) {
          WriteInv(s, st, r);
        }
      case Read(_) =>
        if st.b.pc[r].Outside? && Reading(s, st.b, r) && |st.dst[r]| < s.n * s.size(CallOf(s, st.b, r)) {
          ReadInv(s, st, r);
        }
    }
  }

  lemma AnswerByte(s: Script, dst: seq<byte>, k: nat, q: nat, j: nat, p: int)
    requires s.Valid() && |dst| == s.n * s.size(k)
    requires forall i :: 0 <= i < |dst| ==> dst[i] == Gathered(s, k, i)
    requires q < s.n && j < s.size(k) && p == q * s.size(k) + j
    ensures 0 <= p < |dst| && dst[p] == s.src(q, k)[j]
  {
    PairBound(q, j, s.n, s.size(k));
    DivModUnique(p, q, j, s.size(k));
  }

  // ---------- whole copies ----------

  /** The rank's next `count` written bytes. */
  function WriteBytes(s: Script, st: State, r: nat, count: nat): (st': State)
    requires s.Valid() && Shape(s, st) && r < s.n && st.written[r] + count <= s.size(CallOf(s, st.b, r))
    ensures Shape(s, st') && st'.b == st.b && st'.written[r] == st.written[r] + count
  {
    if count == 0 then st else WriteByte(s, WriteBytes(s, st, r, count - 1), r)
  }

  /** Together they are one memcpy into the rank's slot. */
  lemma {:induction false} WriteBytesCopy(s: Script, st: State, r: nat, count: nat)
    requires s.Valid() && Shape(s, st) && r < s.n && st.written[r] == 0 && count <= s.size(CallOf(s, st.b, r))
    ensures var base := r * VAULT_SIZE_PER_RANK;
            forall i :: 0 <= i < |st.vault| ==>
              WriteBytes(s, st, r, count).vault[i] ==
                if base <= i < base + count then s.src(r, CallOf(s, st.b, r))[i - base] else st.vault[i]
  {
    if count > 0 {
      WriteBytesCopy(s, st, r, count - 1);
      SlotFits(s, r, count - 1);
    }
  }

  /** The rank's next `count` bytes read out. */
  function ReadBytes(s: Script, st: State, r: nat, count: nat): (st': State)
    requires s.Valid() && Shape(s, st) && r < s.n && |st.dst[r]| + count <= s.n * s.size(CallOf(s, st.b, r))
    ensures Shape(s, st') && st'.b == st.b && st'.vault == st.vault && |st'.dst[r]| == |st.dst[r]| + count
  {
    if count == 0 then st else ReadByte(s, ReadBytes(s, st, r, count - 1), r)
  }

  /** Together they pack the slots one after the other. */
  lemma {:induction false} ReadBytesCopy(s: Script, st: State, r: nat, size: nat, count: nat, p: nat)
    requires s.Valid() && Shape(s, st) && r < s.n && st.dst[r] == [] && size == s.size(CallOf(s, st.b, r))
    requires p < count <= s.n * size
    ensures 0 <= p / size < s.n && ReadBytes(s, st, r, count).dst[r][p] == Slot(s, st, p / size, p % size)
  {
    DivLess(p, s.n, size);
    if p < count - 1 {
      ReadBytesCopy(s, st, r, size, count - 1, p);
    }
  }
}
