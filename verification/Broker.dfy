/**
 A broker over its whole life: plain barriers, exchanges of data and exchanges of descriptors, in any
 order that all ranks share, over one barrier, one vault and one set of mailboxes.
 */
module Broker {
  import opened BrokerCalls
  import Barrier
  import ExchangeData
  import ExchangeFds
  import ExchangeFdsSteps

  datatype State = State(
    b: Barrier.State,
    vault: seq<byte>,
    written: seq<nat>,
    dst: seq<seq<byte>>,
    mail: seq<multiset<ExchangeFds.Msg>>,
    local: seq<ExchangeFds.Local>)

  datatype Step =
    | Sync(rank: nat) | Spurious(rank: nat)
    | Write(rank: nat) | Read(rank: nat)
    | Act(rank: nat) | Recv(rank: nat, msg: ExchangeFds.Msg)

  /** What the exchanges of data see ... */
  function DataState(st: State): ExchangeData.State {
    ExchangeData.State(st.b, st.vault, st.written, st.dst)
  }

  /** ... and what the exchanges of descriptors see. */
  function FdsState(st: State): ExchangeFds.State {
    ExchangeFds.State(st.b, st.mail, st.local)
  }

  function WithData(st: State, d: ExchangeData.State): State {
    st.(b := d.b, vault := d.vault, written := d.written, dst := d.dst)
  }

  function WithFds(st: State, f: ExchangeFds.State): State {
    st.(b := f.b, mail := f.mail, local := f.local)
  }

  ghost predicate Shape(s: Script, st: State) {
    ExchangeData.Shape(s, DataState(st)) && ExchangeFds.Shape(s, FdsState(st))
  }

  /** The rank has work of its call to finish before it may call sync. */
  predicate Busy(s: Script, st: State, r: nat)
    requires |st.b.pc| == |st.b.returned| == |st.written| == |st.dst| == |st.local| == s.n && r < s.n
  {
    || (st.b.pc[r].Outside? && !ExchangeData.CopiesDone(s, DataState(st), r))
    || ExchangeFds.InBody(s, FdsState(st), r)
    || st.local[r].failed
  }

  function Apply(s: Script, st: State, step: Step): State
    requires s.Valid() && Shape(s, st)
  {
    var r := step.rank;
    if r >= s.n then st
    else match step
      case Sync(_) =>
        if Busy(s, st, r) then st
        else WithFds(WithData(st, ExchangeData.Apply(s, DataState(st), ExchangeData.Sync(r))),
                     ExchangeFds.Apply(s, FdsState(st), ExchangeFds.Sync(r)))
      case Spurious(_) => st.(b := Barrier.Apply(s.n, st.b, Barrier.Spurious(r)))
      case Write(_) => WithData(st, ExchangeData.Apply(s, DataState(st), ExchangeData.Write(r)))
      case Read(_) => WithData(st, ExchangeData.Apply(s, DataState(st), ExchangeData.Read(r)))
      case Act(_) => WithFds(st, ExchangeFds.Apply(s, FdsState(st), ExchangeFds.Act(r)))
      case Recv(_, m) => WithFds(st, ExchangeFds.Apply(s, FdsState(st), ExchangeFds.Recv(r, m)))
  }

  // ---------- both protocols at once ----------

  /** A barrier step of a rank that is not busy is the same step of the barrier for both protocols. */
  lemma SyncParts(s: Script, st: State, r: nat)
    requires s.Valid() && Shape(s, st) && r < s.n && !Busy(s, st, r)
    ensures ExchangeData.Apply(s, DataState(st), ExchangeData.Sync(r)).b == Barrier.AdvanceRank(s.n, st.b, r)
    ensures ExchangeFds.Apply(s, FdsState(st), ExchangeFds.Sync(r)).b == Barrier.AdvanceRank(s.n, st.b, r)
    ensures DataState(Apply(s, st, Sync(r))) == ExchangeData.Apply(s, DataState(st), ExchangeData.Sync(r))
    ensures FdsState(Apply(s, st, Sync(r))) == ExchangeFds.Apply(s, FdsState(st), ExchangeFds.Sync(r))
  {
  }

  /** The steps of one protocol leave the barrier and the state of the other alone. */
  lemma OwnParts(s: Script, st: State, step: Step)
    requires s.Valid() && Shape(s, st) && step.rank < s.n && !step.Sync?
    ensures Apply(s, st, step).b == if step.Spurious? then Barrier.Apply(s.n, st.b, Barrier.Spurious(step.rank)) else st.b
    ensures step.Write? || step.Read? ==> FdsState(Apply(s, st, step)) == FdsState(st)
    ensures step.Act? || step.Recv? ==> DataState(Apply(s, st, step)) == DataState(st)
  {
  }

  ghost predicate Inv(s: Script, st: State) {
    ExchangeData.Inv(s, DataState(st)) && ExchangeFds.Inv(s, FdsState(st))
  }

  /** Every step of every rank keeps the invariants of both protocols. */
  lemma ApplyInv(s: Script, st: State, step: Step)
    requires Inv(s, st)
    ensures Inv(s, Apply(s, st, step))
  {
    var r := step.rank;
    if r < s.n {
      match step
      case Sync(_) =>
        if !Busy(s, st, r) {
          SyncParts(s, st, r);
          ExchangeData.ApplyInv(s, DataState(st), ExchangeData.Sync(r));
          ExchangeFdsSteps.ApplyInv(s, FdsState(st), ExchangeFds.Sync(r));
        }
      case Spurious(_) =>
        ExchangeData.ApplyInv(s, DataState(st), ExchangeData.Spurious(r));
        ExchangeFdsSteps.ApplyInv(s, FdsState(st), ExchangeFds.Spurious(r));
      case Write(_) =>
        OwnParts(s, st, step);
        ExchangeData.ApplyInv(s, DataState(st), ExchangeData.Write(r));
      case Read(_) =>
        OwnParts(s, st, step);
        ExchangeData.ApplyInv(s, DataState(st), ExchangeData.Read(r));
      case Act(_) =>
        OwnParts(s, st, step);
        ExchangeFdsSteps.ApplyInv(s, FdsState(st), ExchangeFds.Act(r));
      case Recv(_, m) =>
        OwnParts(s, st, step);
        ExchangeFdsSteps.ApplyInv(s, FdsState(st), ExchangeFds.Recv(r, m));
    }
  }

  // ---------- runs ----------

  function Init(s: Script, vault: seq<byte>): (st: State)
    requires s.Valid() && |vault| == s.n * VAULT_SIZE_PER_RANK
    ensures Inv(s, st)
  {
    ExchangeData.InitInv(s, vault);
    Barrier.InitInv(s.n);
    State(Barrier.Init(s.n), vault, seq(s.n, r => 0), seq(s.n, r => []),
          seq(s.n, r => multiset{}), seq(s.n, r requires 0 <= r < s.n => ExchangeFds.Fresh(s, 0, r)))
  }

  function Exec(s: Script, st: State, run: seq<Step>): (e: State)
    requires Inv(s, st)
    ensures Inv(s, e)
    decreases |run|
  {
    if run == [] then st
    else
      ApplyInv(s, st, run[0]);
      Exec(s, Apply(s, st, run[0]), run[1..])
  }

  function Reach(s: Script, vault: seq<byte>, run: seq<Step>): (e: State)
    requires s.Valid() && |vault| == s.n * VAULT_SIZE_PER_RANK
    ensures Inv(s, e)
  {
    Exec(s, Init(s, vault), run)
  }

  /** Rank r has returned from call k. */
  predicate Returned(s: Script, st: State, r: nat, k: nat)
    requires r < |st.b.returned|
  {
    k < Current(s, st.b.returned[r])
  }

  /** Every call is a barrier: whoever has returned from call k, all ranks have entered its last barrier. */
  lemma CallsAreBarriers(s: Script, vault: seq<byte>, run: seq<Step>, k: nat, r: nat, q: nat)
    requires s.Valid() && |vault| == s.n * VAULT_SIZE_PER_RANK && r < s.n && q < s.n
    requires Returned(s, Reach(s, vault, run), r, k)
    ensures Start(s, k) + s.call(k).Barriers() <= Reach(s, vault, run).b.entered[q]
  {
    var st := Reach(s, vault, run);
    CallsDone(s, st.b.returned[r], k + 1);
    Barrier.Lockstep(s.n, st.b, r, q);
  }

  /** Call k was rank r's last exchange of data, and the rank is not copying out the next one. */
  ghost predicate LatestData(s: Script, st: State, r: nat, k: nat)
    requires r < |st.b.returned|
  {
    && s.call(k).Data? && Returned(s, st, r, k)
    && !(s.call(Current(s, st.b.returned[r])).Data? && At(s, st.b.returned[r]).at == 2)
    && forall j :: k < j < Current(s, st.b.returned[r]) ==> !s.call(j).Data?
  }

  /** All-gather: after `exchange_data`, whatever the calls before and after it, dst is the concatenation of
      what the ranks passed to that call: byte j of rank q's argument is at q * size + j. */
  lemma ExchangeIsAllGather(s: Script, vault: seq<byte>, run: seq<Step>, k: nat, r: nat, q: nat, j: nat)
    requires s.Valid() && |vault| == s.n * VAULT_SIZE_PER_RANK && r < s.n
    requires LatestData(s, Reach(s, vault, run), r, k) && q < s.n && j < s.size(k)
    ensures var dst := Reach(s, vault, run).dst[r];
            && |dst| == s.n * s.size(k)
            && 0 <= q * s.size(k) + j < |dst|
            && dst[q * s.size(k) + j] == s.src(q, k)[j]
  {
    var st := Reach(s, vault, run);
    assert ExchangeData.DstInv(s, DataState(st), r);
    LastDataMeans(s, st.b.returned[r], k);
    ExchangeData.AnswerByte(s, st.dst[r], k, q, j, q * s.size(k) + j);
  }

  /** Call k was the last to pass rank r a descriptor, and the rank has not entered another one. */
  ghost predicate LatestFds(s: Script, st: State, r: nat, k: nat)
    requires r < |st.b.returned| && r < |st.b.pc|
  {
    var m := st.b.returned[r];
    && (s.call(k).Exchange? || s.call(k).Broadcast?) && Returned(s, st, r, k)
    && (At(s, m).at == 0 || s.call(Current(s, m)).Data?) && st.b.pc[r].Outside?
    && forall j :: k < j < Current(s, m) ==> s.call(j).Plain? || s.call(j).Data?
  }

  /** After `exchange_fds` or `broadcast_fd` the rank holds exactly the descriptors that the call promises. */
  lemma CallResult(s: Script, vault: seq<byte>, run: seq<Step>, k: nat, r: nat)
    requires s.Valid() && |vault| == s.n * VAULT_SIZE_PER_RANK && r < s.n
    requires LatestFds(s, Reach(s, vault, run), r, k)
    ensures |Reach(s, vault, run).local[r].dst| == s.n
    ensures ExchangeFds.Result(s, Reach(s, vault, run).local[r], r, k)
  {
    var st := Reach(s, vault, run);
    assert ExchangeFds.RankInv(s, FdsState(st), r) && Barrier.RankInv(s.n, st.b, r);
    LastFdsMeans(s, st.b.returned[r], k);
    ExchangeFdsSteps.ClosedResult(s, st.local[r], r, k);
  }

  /** No rank ever takes an error exit; a mailbox is empty unless its rank is inside a call that passes
      descriptors and is not done with it, so no message reaches a later call. */
  lemma RoundsNeverMix(s: Script, vault: seq<byte>, run: seq<Step>, r: nat)
    requires s.Valid() && |vault| == s.n * VAULT_SIZE_PER_RANK && r < s.n
    ensures var st := Reach(s, vault, run);
            && !st.local[r].failed
            && (!BodyAt(s, st.b.generation) || st.local[r].closed ==> st.mail[r] == multiset{})
  {
    var st := Reach(s, vault, run);
    ExchangeFdsSteps.MailEmpty(s, FdsState(st), r);
  }

  // ---------- no deadlock ----------

  ghost predicate Moves(s: Script, st: State, step: Step)
    requires Inv(s, st)
  {
    !step.Spurious? && Apply(s, st, step) != st
  }

  lemma SyncMoves(s: Script, st: State, r: nat)
    requires Inv(s, st) && r < s.n && !Busy(s, st, r) && Barrier.AdvanceRank(s.n, st.b, r) != st.b
    ensures Moves(s, st, Sync(r))
  {
    SyncParts(s, st, r);
  }

  /** A rank with bytes to copy copies one. */
  lemma CopyMoves(s: Script, st: State, r: nat) returns (step: Step)
    requires Inv(s, st) && r < s.n && st.b.pc[r].Outside? && !ExchangeData.CopiesDone(s, DataState(st), r)
    ensures step.rank == r && (step.Write? || step.Read?) && Moves(s, st, step)
  {
    if WriteAt(s, st.b.returned[r]) {
      step := Write(r);
      assert Apply(s, st, step).written[r] != st.written[r];
    } else {
      step := Read(r);
      assert |Apply(s, st, step).dst[r]| != |st.dst[r]|;
    }
  }

  /** A rank in a call that passes descriptors, with everybody asleep or in it. */
  lemma FdsMove(s: Script, st: State, r: nat) returns (step: Step)
    requires Inv(s, st) && r < s.n && ExchangeFds.InBody(s, FdsState(st), r)
    requires forall q :: 0 <= q < s.n ==> ExchangeFds.InBody(s, FdsState(st), q) || st.b.pc[q].Waiting?
    ensures step.rank < s.n && (step.Act? || step.Recv?) && Moves(s, st, step)
    ensures step.Recv? ==> step.msg in st.mail[step.rank]
  {
    ExchangeFdsSteps.BodyOrClosed(s, FdsState(st), r);
    ExchangeFdsSteps.BodyGeneration(s, FdsState(st), r);
    var f;
    if s.call(Current(s, st.b.generation)).Exchange? {
      f := ExchangeFdsSteps.ExchangeMoves(s, FdsState(st), r);
    } else {
      f := ExchangeFdsSteps.BroadcastMoves(s, FdsState(st), r);
    }
    assert ExchangeFds.Apply(s, FdsState(st), f) != FdsState(st);
    step := if f.Act? then Act(f.rank) else Recv(f.rank, f.msg);
    assert FdsState(Apply(s, st, step)) == ExchangeFds.Apply(s, FdsState(st), f);
  }

  /** In every state the invariant admits some rank moves. */
  lemma SomeStepMoves(s: Script, st: State) returns (step: Step)
    requires Inv(s, st)
    ensures step.rank < s.n && Moves(s, st, step)
    ensures step.Recv? ==> step.msg in st.mail[step.rank]
  {
    if st.b.owner != -1 {
      var r := st.b.owner;
      Barrier.OwnerMoves(s.n, st.b);
      assert ExchangeFds.RankInv(s, FdsState(st), r);
      SyncMoves(s, st, r);
      step := Sync(r);
    } else if q: nat :| q < s.n && !ExchangeFds.InBody(s, FdsState(st), q) && !st.b.pc[q].Waiting? {
      Barrier.FreeMoves(s.n, st.b, q);
      assert ExchangeFds.RankInv(s, FdsState(st), q);
      if st.b.pc[q].Outside? && !ExchangeData.CopiesDone(s, DataState(st), q) {
        step := CopyMoves(s, st, q);
      } else {
        SyncMoves(s, st, q);
        step := Sync(q);
      }
    } else {
      var r := Barrier.SomeoneAwake(s.n, st.b);
      step := FdsMove(s, st, r);
    }
  }

  /** From every reachable state some rank can move without a spurious wakeup. */
  lemma NoDeadlock(s: Script, vault: seq<byte>, run: seq<Step>) returns (step: Step)
    requires s.Valid() && |vault| == s.n * VAULT_SIZE_PER_RANK
    ensures Moves(s, Reach(s, vault, run), step)
  {
    step := SomeStepMoves(s, Reach(s, vault, run));
  }
}
