/** Progress of a broker: enough fair rounds return every rank from its k-th call, whatever the calls are. */
module BrokerProgress {
  import opened Sequences
  import opened BrokerCalls
  import Barrier
  import BarrierProgress
  import ExchangeData
  import ExchangeDataProgress
  import ExchangeFds
  import ExchangeFdsProgress
  import opened Broker

  /** How far a rank is through the phase between two barriers. */
  function Work(s: Script, st: State, r: nat): nat
    requires Shape(s, st) && r < s.n
  {
    ExchangeDataProgress.Copies(s, DataState(st), r) + ExchangeFdsProgress.Done(s, FdsState(st), r)
  }

  /** More than the work of any phase. */
  function Weight(s: Script): nat {
    ExchangeDataProgress.Weight(s) + ExchangeFdsProgress.Weight(s)
  }

  lemma WorkBound(s: Script, st: State, r: nat)
    requires Inv(s, st) && r < s.n
    ensures Work(s, st, r) < Weight(s)
  {
    ExchangeDataProgress.CopiesBound(s, DataState(st), r);
    ExchangeFdsProgress.DoneBound(s, FdsState(st), r);
  }

  function Score(s: Script, st: State, r: nat): int
    requires Shape(s, st) && r < s.n
  {
    Weight(s) * BarrierProgress.Progress(st.b, r) + Work(s, st, r)
  }

  function Total(s: Script, st: State): int
    requires Shape(s, st)
  {
    Sum(seq(s.n, r requires 0 <= r < s.n => Score(s, st, r)))
  }

  // ---------- what a step adds ----------

  /** What a barrier step of one rank leaves of another. */
  lemma OthersStand(s: Script, st: State, step: Step, q: nat)
    requires s.Valid() && Shape(s, st) && q < s.n && q != step.rank && (step.Sync? || step.Spurious?)
    ensures var st' := Apply(s, st, step);
            && Shape(s, st') && st'.b.returned[q] == st.b.returned[q]
            && (st'.b.pc[q].Outside? <==> st.b.pc[q].Outside?)
            && st'.written[q] == st.written[q] && st'.dst[q] == st.dst[q] && st'.local[q] == st.local[q]
  {
  }

  /** It is no work of the other. */
  lemma OthersWork(s: Script, st: State, step: Step, q: nat)
    requires s.Valid() && Shape(s, st) && q < s.n && q != step.rank && (step.Sync? || step.Spurious?)
    requires Shape(s, Apply(s, st, step))
    ensures Work(s, Apply(s, st, step), q) == Work(s, st, q)
  {
    OthersStand(s, st, step, q);
  }

  /** A step at the barrier outweighs the work that it ends. */
  lemma BarrierScore(s: Script, st: State, step: Step, q: nat)
    requires Inv(s, st) && q < s.n && (step.Sync? || step.Spurious?) && Apply(s, st, step) != st
    requires Inv(s, Apply(s, st, step))
    ensures Score(s, Apply(s, st, step), q) >=
            Score(s, st, q) + if q != step.rank then 0 else if step.Spurious? then -3 * Weight(s) else 1
  {
    var st' := Apply(s, st, step);
    var r := step.rank;
    WorkBound(s, st, q);
    if q != r {
      OthersWork(s, st, step, q);
    }
    var p, p' := BarrierProgress.Progress(st.b, q), BarrierProgress.Progress(st'.b, q);
    if step.Spurious? {
      BarrierProgress.SpuriousProgress(s.n, st.b, r, q);
      BarrierProgress.Outweighs(Weight(s), p, p', Work(s, st, q), Work(s, st', q), if q == r then -2 else 0);
    } else {
      SyncAdvances(s, st, r);
      BarrierProgress.AdvanceProgress(s.n, st.b, r, q);
      BarrierProgress.Outweighs(Weight(s), p, p', Work(s, st, q), Work(s, st', q), if q == r then 1 else 0);
    }
  }

  lemma SyncAdvances(s: Script, st: State, r: nat)
    requires Inv(s, st) && Apply(s, st, Sync(r)) != st
    ensures r < s.n && Apply(s, st, Sync(r)).b == Barrier.AdvanceRank(s.n, st.b, r) != st.b
  {
    if !Busy(s, st, r) {
      SyncParts(s, st, r);
    }
  }

  /** A step between barriers is work of its rank. */
  lemma WorkScore(s: Script, st: State, step: Step, q: nat)
    requires Inv(s, st) && q < s.n && !step.Sync? && !step.Spurious? && Apply(s, st, step) != st
    requires Inv(s, Apply(s, st, step))
    ensures Score(s, Apply(s, st, step), q) >= Score(s, st, q) + if q == step.rank then 1 else 0
  {
    OwnParts(s, st, step);
    if step.Write? || step.Read? {
      DataWork(s, st, step, q);
    } else {
      FdsWork(s, st, step, q);
    }
  }

  lemma DataWork(s: Script, st: State, step: Step, q: nat)
    requires Inv(s, st) && q < s.n && (step.Write? || step.Read?) && Apply(s, st, step) != st
    requires Inv(s, Apply(s, st, step)) && FdsState(Apply(s, st, step)) == FdsState(st)
    ensures Work(s, Apply(s, st, step), q) >= Work(s, st, q) + if q == step.rank then 1 else 0
  {
    var d := if step.Write? then ExchangeData.Write(step.rank) else ExchangeData.Read(step.rank);
    assert DataState(Apply(s, st, step)) == ExchangeData.Apply(s, DataState(st), d) != DataState(st);
    ExchangeDataProgress.CopyMoves(s, DataState(st), d, q);
  }

  lemma FdsWork(s: Script, st: State, step: Step, q: nat)
    requires Inv(s, st) && q < s.n && (step.Act? || step.Recv?) && Apply(s, st, step) != st
    requires Inv(s, Apply(s, st, step)) && DataState(Apply(s, st, step)) == DataState(st)
    ensures Work(s, Apply(s, st, step), q) >= Work(s, st, q) + if q == step.rank then 1 else 0
  {
    var f := if step.Act? then ExchangeFds.Act(step.rank) else ExchangeFds.Recv(step.rank, step.msg);
    assert FdsState(Apply(s, st, step)) == ExchangeFds.Apply(s, FdsState(st), f) != FdsState(st);
    ExchangeFdsProgress.BodyMoves(s, FdsState(st), f, q);
  }

  /** Every effective step adds to the total; a spurious wakeup takes away a bounded amount. */
  lemma StepTotal(s: Script, st: State, step: Step)
    requires Inv(s, st)
    ensures Inv(s, Apply(s, st, step))
    ensures Total(s, Apply(s, st, step)) >= Total(s, st) - if step.Spurious? then 3 * Weight(s) else 0
    ensures !step.Spurious? && Apply(s, st, step) != st ==> Total(s, Apply(s, st, step)) >= Total(s, st) + 1
  {
    ApplyInv(s, st, step);
    var st', r := Apply(s, st, step), step.rank;
    if st' != st {
      var before := seq(s.n, q requires 0 <= q < s.n => Score(s, st, q));
      var after := seq(s.n, q requires 0 <= q < s.n => Score(s, st', q));
      forall q | 0 <= q < s.n
        ensures after[q] >= before[q] + if q != r then 0 else if step.Spurious? then -3 * Weight(s) else 1
      {
        if step.Sync? || step.Spurious? {
          BarrierScore(s, st, step, q);
        } else {
          WorkScore(s, st, step, q);
        }
      }
      SumGrows(before, after, r, if step.Spurious? then -3 * Weight(s) else 1);
    }
  }

  // ---------- rounds ----------

  function Wakeups(run: seq<Step>): nat {
    if run == [] then 0 else (if run[0].Spurious? then 1 else 0) + Wakeups(run[1..])
  }

  /** What a list of steps gains: one at least if it holds a step that moves, up to its spurious wakeups. */
  ghost predicate Gains(s: Script, st: State, round: seq<Step>, gain: int)
    requires Inv(s, st)
  {
    Total(s, Exec(s, st, round)) + BarrierProgress.Cost(Weight(s), Wakeups(round)) >= Total(s, st) + gain
  }

  lemma GainsFirst(s: Script, st: State, round: seq<Step>, gain: int)
    requires Inv(s, st) && round != [] && Inv(s, Apply(s, st, round[0]))
    requires Gains(s, Apply(s, st, round[0]), round[1..], gain)
    ensures Gains(s, st, round, gain + if Apply(s, st, round[0]) != st then 1 else 0)
  {
    var st', effective := Apply(s, st, round[0]), if Apply(s, st, round[0]) != st then 1 else 0;
    StepTotal(s, st, round[0]);
    BarrierProgress.CostAdds(Weight(s), 0, 0);
    BarrierProgress.AddGains(Weight(s), Total(s, st), Total(s, st'), Total(s, Exec(s, st, round)),
                             if round[0].Spurious? then 1 else 0, Wakeups(round[1..]), Wakeups(round), effective, gain);
  }

  lemma {:induction false} RoundTotal(s: Script, st: State, round: seq<Step>)
    requires Inv(s, st)
    ensures Gains(s, st, round, if exists step :: step in round && Moves(s, st, step) then 1 else 0)
    decreases |round|
  {
    if round != [] {
      ApplyInv(s, st, round[0]);
      var st', rest := Apply(s, st, round[0]), round[1..];
      RoundTotal(s, st', rest);
      GainsFirst(s, st, round, if exists step :: step in rest && Moves(s, st', step) then 1 else 0);
    } else {
      BarrierProgress.CostAdds(Weight(s), 0, 0);
    }
  }

  /** Every rank gets at least one turn of each kind, and is offered every message that waits for it. */
  ghost predicate Fair(s: Script, st: State, round: seq<Step>)
    requires Shape(s, st)
  {
    forall r: nat :: r < s.n ==> FairTo(st, round, r)
  }

  ghost predicate FairTo(st: State, round: seq<Step>, r: nat)
    requires r < |st.mail|
  {
    && Sync(r) in round && Write(r) in round && Read(r) in round && Act(r) in round
    && forall m :: m in st.mail[r] ==> Recv(r, m) in round
  }

  lemma FairRoundTotal(s: Script, st: State, round: seq<Step>)
    requires Inv(s, st) && Fair(s, st, round)
    ensures Gains(s, st, round, 1)
  {
    var step := SomeStepMoves(s, st);
    assert FairTo(st, round, step.rank);
    assert step in round;
    RoundTotal(s, st, round);
  }

  ghost function ExecRounds(s: Script, st: State, rounds: seq<seq<Step>>): (e: State)
    requires Inv(s, st)
    ensures Inv(s, e)
    decreases |rounds|
  {
    if rounds == [] then st else ExecRounds(s, Exec(s, st, rounds[0]), rounds[1..])
  }

  /** Each round is fair in the state in which it starts. */
  ghost predicate AllFair(s: Script, st: State, rounds: seq<seq<Step>>)
    requires Inv(s, st)
    decreases |rounds|
  {
    rounds != [] ==> Fair(s, st, rounds[0]) && AllFair(s, Exec(s, st, rounds[0]), rounds[1..])
  }

  function AllWakeups(rounds: seq<seq<Step>>): nat {
    if rounds == [] then 0 else Wakeups(rounds[0]) + AllWakeups(rounds[1..])
  }

  /** The first round and the others. */
  lemma ExecFirst(s: Script, st: State, rounds: seq<seq<Step>>)
    requires Inv(s, st) && rounds != []
    ensures ExecRounds(s, st, rounds) == ExecRounds(s, Exec(s, st, rounds[0]), rounds[1..])
    ensures AllWakeups(rounds) == Wakeups(rounds[0]) + AllWakeups(rounds[1..])
  {
  }

  /** Each round adds to the total, up to its spurious wakeups. */
  ghost predicate Pays(s: Script, st: State, rounds: seq<seq<Step>>)
    requires Inv(s, st)
  {
    Total(s, ExecRounds(s, st, rounds)) + BarrierProgress.Cost(Weight(s), AllWakeups(rounds)) >= Total(s, st) + |rounds|
  }

  lemma PaysFirst(s: Script, st: State, rounds: seq<seq<Step>>)
    requires Inv(s, st) && rounds != [] && Fair(s, st, rounds[0])
    requires Pays(s, Exec(s, st, rounds[0]), rounds[1..])
    ensures Pays(s, st, rounds)
  {
    FairRoundTotal(s, st, rounds[0]);
    ExecFirst(s, st, rounds);
    BarrierProgress.AddGains(Weight(s), Total(s, st), Total(s, Exec(s, st, rounds[0])),
                             Total(s, ExecRounds(s, st, rounds)), Wakeups(rounds[0]), AllWakeups(rounds[1..]),
                             AllWakeups(rounds), 1, |rounds| - 1);
  }

  lemma {:induction false} RoundsTotal(s: Script, st: State, rounds: seq<seq<Step>>)
    requires Inv(s, st) && AllFair(s, st, rounds)
    ensures Pays(s, st, rounds)
    decreases |rounds|
  {
    if rounds != [] {
      RoundsTotal(s, Exec(s, st, rounds[0]), rounds[1..]);
      PaysFirst(s, st, rounds);
    } else {
      BarrierProgress.CostAdds(Weight(s), 0, 0);
    }
  }

  lemma TotalStart(s: Script, vault: seq<byte>)
    requires s.Valid() && |vault| == s.n * VAULT_SIZE_PER_RANK
    ensures Total(s, Init(s, vault)) >= 0
  {
    var st := Init(s, vault);
    var zeros, scores := seq(s.n, q => 0), seq(s.n, r requires 0 <= r < s.n => Score(s, st, r));
    forall q | 0 <= q < s.n ensures zeros[q] <= scores[q] {
      assert scores[q] == Score(s, st, q) == Work(s, st, q);
    }
    SumCompare(zeros, scores);
    BarrierProgress.SumZero(s.n);
  }

  /** The most one rank scores before everybody has passed so many barriers. */
  function Most(s: Script, barriers: nat): nat {
    Weight(s) * (18 * barriers + 16)
  }

  lemma TotalBound(s: Script, st: State, barriers: nat, r: nat)
    requires Inv(s, st) && r < s.n && st.b.returned[r] < barriers
    ensures Total(s, st) <= s.n * Most(s, barriers)
  {
    forall q: nat | q < s.n ensures Score(s, st, q) <= Most(s, barriers) {
      BarrierProgress.ProgressBound(s.n, st.b, barriers, r, q);
      WorkBound(s, st, q);
      BarrierProgress.ScoreBound(Weight(s), BarrierProgress.Progress(st.b, q), 18 * barriers + 15, Work(s, st, q));
    }
    SumBound(seq(s.n, q requires 0 <= q < s.n => Score(s, st, q)), Most(s, barriers));
  }

  /** Liveness: enough fair rounds return every rank from its first k calls, each spurious wakeup costing a
      bounded number of rounds. */
  lemma FairRoundsReturn(s: Script, vault: seq<byte>, k: nat, rounds: seq<seq<Step>>, r: nat)
    requires s.Valid() && |vault| == s.n * VAULT_SIZE_PER_RANK && r < s.n && AllFair(s, Init(s, vault), rounds)
    requires |rounds| > s.n * Most(s, Start(s, k)) + BarrierProgress.Cost(Weight(s), AllWakeups(rounds))
    ensures k <= Current(s, ExecRounds(s, Init(s, vault), rounds).b.returned[r])
  {
    var st := ExecRounds(s, Init(s, vault), rounds);
    TotalStart(s, vault);
    RoundsTotal(s, Init(s, vault), rounds);
    if st.b.returned[r] < Start(s, k) {
      TotalBound(s, st, Start(s, k), r);
    }
    CallsDone(s, st.b.returned[r], k);
  }
}
