/**
 The reusable generation-counted barrier of the broker: a process-shared mutex, a condition
 variable, a count and a generation.  Ranks interleave freely, may be woken for no reason, and
 may start the next barrier while others have not left the last one.
 */
module Barrier {
  import opened Sequences

  /** Where a rank stands in `sync`. */
  datatype Pc =
    | Outside               // not in sync
    | Locked                // holds the mutex, has not counted itself yet
    | Waiting(gen: int)     // asleep in cond_wait, mutex released
    | Awake(gen: int)       // woken by the broadcast or spuriously, wants the mutex back
    | Rechecking(gen: int)  // holds the mutex, about to test the generation again
    | Leaving               // holds the mutex, about to unlock and return
  {
    predicate Holds() { Locked? || Rechecking? || Leaving? }
  }

  /** Vault fields, mutex owner and, per rank, how often it was counted and how often it returned. */
  datatype State = State(
    owner: int,             // -1 when the mutex is free
    count: int,
    generation: nat,
    pc: seq<Pc>,
    entered: seq<nat>,
    returned: seq<nat>)

  datatype Step = Advance(rank: nat) | Spurious(rank: nat)

  function Init(n: nat): State {
    State(-1, 0, 0, seq(n, r => Outside), seq(n, r => 0), seq(n, r => 0))
  }

  ghost predicate Shape(n: nat, b: State) {
    n > 0 && |b.pc| == n && |b.entered| == n && |b.returned| == n
  }

  /** pthread_cond_broadcast: every sleeper becomes runnable. */
  function Broadcast(pc: seq<Pc>): (r: seq<Pc>)
    ensures |r| == |pc|
    ensures forall i :: 0 <= i < |pc| ==> r[i] == if pc[i].Waiting? then Awake(pc[i].gen) else pc[i]
  {
    seq(|pc|, i requires 0 <= i < |pc| => if pc[i].Waiting? then Awake(pc[i].gen) else pc[i])
  }

  /** The next atomic step of rank r; a rank that cannot move leaves the state alone. */
  function AdvanceRank(n: nat, b: State, r: nat): State
    requires Shape(n, b) && r < n
  {
    match b.pc[r]
    case Outside =>
      if b.owner == -1 then b.(owner := r, pc := b.pc[r := Locked]) else b
    case Locked =>
      var entered := b.entered[r := b.entered[r] + 1];
      if b.count + 1 == n then
        b.(count := 0, generation := b.generation + 1, pc := Broadcast(b.pc)[r := Leaving], entered := entered)
      else
        b.(owner := -1, count := b.count + 1, pc := b.pc[r := Waiting(b.generation)], entered := entered)
    case Waiting(_) => b
    case Awake(gen) =>
      if b.owner == -1 then b.(owner := r, pc := b.pc[r := Rechecking(gen)]) else b
    case Rechecking(gen) =>
      if gen == b.generation then b.(owner := -1, pc := b.pc[r := Waiting(gen)])
      else b.(pc := b.pc[r := Leaving])
    case Leaving =>
      b.(owner := -1, pc := b.pc[r := Outside], returned := b.returned[r := b.returned[r] + 1])
  }

  function Apply(n: nat, b: State, step: Step): State
    requires Shape(n, b)
  {
    match step
    case Advance(r) => if r < n then AdvanceRank(n, b, r) else b
    case Spurious(r) => if r < n && b.pc[r].Waiting? then b.(pc := b.pc[r := Awake(b.pc[r].gen)]) else b
  }

  // ---------- invariant ----------

  /** Ranks already counted towards the current generation. */
  function Counted(b: State): set<int> {
    set r | 0 <= r < |b.entered| && b.entered[r] == b.generation + 1
  }

  ghost predicate RankInv(n: nat, b: State, r: nat)
    requires Shape(n, b) && r < n
  {
    && (b.owner == r <==> b.pc[r].Holds())
    && match b.pc[r] {
         case Outside => b.entered[r] == b.returned[r] == b.generation
         case Locked => b.entered[r] == b.returned[r] == b.generation
         case Waiting(gen) => b.entered[r] == b.returned[r] + 1 == gen + 1 && gen == b.generation
         case Awake(gen) => b.entered[r] == b.returned[r] + 1 == gen + 1 && b.generation - 1 <= gen <= b.generation
         case Rechecking(gen) => b.entered[r] == b.returned[r] + 1 == gen + 1 && b.generation - 1 <= gen <= b.generation
         case Leaving => b.entered[r] == b.returned[r] + 1 == b.generation
       }
  }

  ghost predicate Inv(n: nat, b: State) {
    && Shape(n, b)
    && -1 <= b.owner < n
    && b.count == |Counted(b)| && 0 <= b.count < n
    && forall r :: 0 <= r < n ==> RankInv(n, b, r)
  }

  lemma InitInv(n: nat)
    requires n > 0
    ensures Inv(n, Init(n))
  {
  }

  /** A rank is counted at most once, so the last one sees count + 1 == n exactly when all are in. */
  lemma CountedAll(n: nat, b: State, r: nat)
    requires Inv(n, b) && r < n && b.pc[r].Locked?
    ensures |Counted(b)| + 1 == n ==> forall q :: 0 <= q < n && q != r ==> b.entered[q] == b.generation + 1
    ensures r !in Counted(b)
  {
    assert RankInv(n, b, r);
    if |Counted(b)| + 1 == n {
      RangeSize(0, n);
      SubsetSize(Counted(b) + {r}, Range(0, n));
      forall q | 0 <= q < n && q != r ensures b.entered[q] == b.generation + 1 {
        assert q in Range(0, n);
      }
    }
  }

  lemma ArriveInv(n: nat, b: State, r: nat)
    requires Inv(n, b) && r < n && b.pc[r].Locked?
    ensures Inv(n, AdvanceRank(n, b, r))
  {
    var b' := AdvanceRank(n, b, r);
    CountedAll(n, b, r);
    assert RankInv(n, b, r);
    if b.count + 1 == n {
      forall q | 0 <= q < n ensures RankInv(n, b', q) {
        assert RankInv(n, b, q);
      }
      assert Counted(b') == {};
    } else {
      assert Counted(b') == Counted(b) + {r};
      forall q | 0 <= q < n ensures RankInv(n, b', q) {
        assert RankInv(n, b, q);
      }
      CountedSmall(n, b);
    }
  }

  lemma CountedSmall(n: nat, b: State)
    requires Shape(n, b)
    ensures |Counted(b)| <= n
  {
    RangeSize(0, n);
    SubsetSize(Counted(b), Range(0, n));
  }

  /** Every step of every rank, in any order, keeps the invariant. */
  lemma ApplyInv(n: nat, b: State, step: Step)
    requires Inv(n, b)
    ensures Inv(n, Apply(n, b, step))
  {
    var r := step.rank;
    if r < n {
      assert RankInv(n, b, r);
      if step.Advance? && b.pc[r].Locked? {
        ArriveInv(n, b, r);
      } else {
        var b' := Apply(n, b, step);
        assert Counted(b') == Counted(b);
        forall q | 0 <= q < n ensures RankInv(n, b', q) {
          assert RankInv(n, b, q);
        }
      }
    }
  }

  function Exec(n: nat, b: State, run: seq<Step>): (e: State)
    requires Inv(n, b)
    ensures Inv(n, e)
    decreases |run|
  {
    if run == [] then b
    else
      ApplyInv(n, b, run[0]);
      Exec(n, Apply(n, b, run[0]), run[1..])
  }

  function Reach(n: nat, run: seq<Step>): (e: State)
    requires n > 0
    ensures Inv(n, e)
  {
    InitInv(n);
    Exec(n, Init(n), run)
  }

  /** In every state the invariant admits: nobody has returned more often than anybody was counted,
      and the numbers of returns are within one of each other. */
  lemma Lockstep(n: nat, b: State, r: nat, q: nat)
    requires Inv(n, b) && r < n && q < n
    ensures b.returned[r] <= b.generation <= b.entered[q]
    ensures b.entered[q] <= b.returned[q] + 1
    ensures b.returned[r] <= b.returned[q] + 1
    ensures 0 <= b.count < n
  {
    assert RankInv(n, b, r) && RankInv(n, b, q);
  }

  /** Barrier safety over unbounded reuse: whoever has returned from its k-th sync, all ranks
      have entered their k-th. */
  lemma BarrierSafety(n: nat, run: seq<Step>, k: nat, r: nat, q: nat)
    requires n > 0 && r < n && q < n
    requires k <= Reach(n, run).returned[r]
    ensures k <= Reach(n, run).entered[q]
    ensures Reach(n, run).returned[r] <= Reach(n, run).returned[q] + 1
    ensures 0 <= Reach(n, run).count < n
  {
    Lockstep(n, Reach(n, run), r, q);
  }

  /** The mutex owner can always take its next step ... */
  lemma OwnerMoves(n: nat, b: State)
    requires Inv(n, b) && b.owner != -1
    ensures !b.pc[b.owner].Outside? && AdvanceRank(n, b, b.owner) != b
  {
    assert RankInv(n, b, b.owner);
    assert AdvanceRank(n, b, b.owner).pc[b.owner] != b.pc[b.owner];
  }

  /** ... and with the mutex free, so can every rank that is not asleep. */
  lemma FreeMoves(n: nat, b: State, q: nat)
    requires Inv(n, b) && b.owner == -1 && q < n && !b.pc[q].Waiting?
    ensures AdvanceRank(n, b, q) != b
  {
    assert RankInv(n, b, q);
    assert AdvanceRank(n, b, q).pc[q] != b.pc[q];
  }

  /** Not everybody can be asleep: whoever sleeps is counted, and the last one counted wakes all. */
  lemma SomeoneAwake(n: nat, b: State) returns (q: nat)
    requires Inv(n, b)
    ensures q < n && !b.pc[q].Waiting?
  {
    if forall r :: 0 <= r < n ==> b.pc[r].Waiting? {
      forall r | 0 <= r < n ensures r in Counted(b) {
        assert RankInv(n, b, r);
      }
      RangeSize(0, n);
      SubsetSize(Range(0, n), Counted(b));
      assert false;
    } else {
      q :| 0 <= q < n && !b.pc[q].Waiting?;
    }
  }

  /** Some rank can move on its own ... */
  lemma SomeRankMoves(n: nat, b: State) returns (r: nat)
    requires Inv(n, b)
    ensures r < n && AdvanceRank(n, b, r) != b
  {
    if b.owner != -1 {
      OwnerMoves(n, b);
      r := b.owner;
    } else {
      r := SomeoneAwake(n, b);
      FreeMoves(n, b, r);
    }
  }

  /** ... so there is no lost wakeup and no deadlock: in every reachable state some rank can move, without
      any spurious wakeup. */
  lemma NoDeadlock(n: nat, run: seq<Step>) returns (r: nat)
    requires n > 0
    ensures r < n && AdvanceRank(n, Reach(n, run), r) != Reach(n, run)
  {
    r := SomeRankMoves(n, Reach(n, run));
  }
}
