/** Progress of the descriptor exchanges between two barriers: how far a rank is through its call. */
module ExchangeFdsProgress {
  import opened Arith
  import opened BrokerCalls
  import Barrier
  import opened ExchangeFds

  /** How far a rank is through the body of call k, counting the variables of its role. */
  function BodyProgress(s: Script, l: Local, r: nat, k: nat): nat {
    MulNonneg(l.nextDst, s.n + 2);
    var closed := if l.closed then 1 else 0;
    match s.call(k)
    case Exchange =>
      if r == 0 then l.nextDst * (s.n + 2) + l.nextSrc + l.received + closed
      else (if l.sent then 1 else 0) + l.received + closed
    case Broadcast(root) => (if r == root then l.nextDst else l.received) + closed
    case Plain | Data => 0
  }

  /** More than the progress of any body. */
  function Weight(s: Script): nat {
    MulNonneg(s.n, s.n + 2);
    s.n * (s.n + 2) + 2 * s.n + 3
  }

  lemma BodyBound(s: Script, l: Local, r: nat, k: nat)
    requires s.Valid() && r < s.n && LocalInv(s, l, r, k)
    ensures BodyProgress(s, l, r, k) < Weight(s)
  {
    MulNonneg(s.n, s.n + 2);
    if s.call(k).Exchange? {
      GotBound(s.n, r, l.got);
      if r == 0 {
        MulLe(l.nextDst, s.n, s.n + 2);
      }
    }
  }

  /** Progress in the body, of a rank that is past the opening barrier of its call. */
  function Done(s: Script, st: State, r: nat): nat
    requires |st.b.pc| == |st.b.returned| == |st.local| == s.n && r < s.n
  {
    if st.b.pc[r].Outside? && BodyAt(s, st.b.returned[r]) then BodyProgress(s, st.local[r], r, Current(s, st.b.returned[r])) else 0
  }

  /** A rank past the opening barrier of call k has variables of call k. */
  lemma BodyLocal(s: Script, st: State, r: nat, k: nat)
    requires Inv(s, st) && r < s.n && st.b.pc[r].Outside? && BodyAt(s, st.b.returned[r]) && k == Current(s, st.b.returned[r])
    ensures LocalInv(s, st.local[r], r, k)
  {
    assert RankInv(s, st, r) && Barrier.RankInv(s.n, st.b, r);
    OpenFds(s, st.b.returned[r]);
  }

  lemma DoneBound(s: Script, st: State, r: nat)
    requires Inv(s, st) && r < s.n
    ensures Done(s, st, r) < Weight(s)
  {
    if st.b.pc[r].Outside? && BodyAt(s, st.b.returned[r]) {
      BodyLocal(s, st, r, Current(s, st.b.returned[r]));
      BodyBound(s, st.local[r], r, Current(s, st.b.returned[r]));
    }
  }

  // ---------- what a step adds ----------

  /** A turn of rank 0's loops moves its cursor on or closes the call. */
  lemma HubActMoves(s: Script, st: State, k: nat)
    requires s.Valid() && Shape(s, st) && s.call(k).Exchange? && HubInv(s, st.local[0], k) && !st.local[0].closed
    requires HubAct(s, st) != st && !HubAct(s, st).local[0].failed
    ensures |HubAct(s, st).local| == s.n
    ensures BodyProgress(s, HubAct(s, st).local[0], 0, k) > BodyProgress(s, st.local[0], 0, k)
  {
    MulSucc(st.local[0].nextDst, s.n + 2);
  }

  lemma SpokeActMoves(s: Script, st: State, r: nat, k: nat)
    requires s.Valid() && Shape(s, st) && 0 < r < s.n && s.call(k).Exchange? && !st.local[r].closed
    requires SpokeAct(s, st, r, k) != st
    ensures |SpokeAct(s, st, r, k).local| == s.n
    ensures BodyProgress(s, SpokeAct(s, st, r, k).local[r], r, k) > BodyProgress(s, st.local[r], r, k)
  {
  }

  lemma BroadcastActMoves(s: Script, st: State, r: nat, k: nat, root: nat)
    requires s.Valid() && Shape(s, st) && r < s.n && s.call(k) == Broadcast(root) && root < s.n && !st.local[r].closed
    requires BroadcastAct(s, st, r, k, root) != st
    ensures |BroadcastAct(s, st, r, k, root).local| == s.n
    ensures BodyProgress(s, BroadcastAct(s, st, r, k, root).local[r], r, k) > BodyProgress(s, st.local[r], r, k)
  {
  }

  lemma ActProgress(s: Script, st: State, r: nat, k: nat)
    requires s.Valid() && Shape(s, st) && r < s.n && InBody(s, st, r) && k == Current(s, st.b.returned[r])
    requires LocalInv(s, st.local[r], r, k) && Apply(s, st, Act(r)) != st
    requires Shape(s, Apply(s, st, Act(r))) && !Apply(s, st, Act(r)).local[r].failed
    ensures BodyProgress(s, Apply(s, st, Act(r)).local[r], r, k) > BodyProgress(s, st.local[r], r, k)
  {
    if s.call(k).Broadcast? {
      BroadcastActMoves(s, st, r, k, s.call(k).root);
    } else if r == 0 {
      HubActMoves(s, st, k);
    } else {
      SpokeActMoves(s, st, r, k);
    }
  }

  lemma RecvProgress(s: Script, st: State, r: nat, m: Msg, k: nat)
    requires s.Valid() && Shape(s, st) && r < s.n && InBody(s, st, r) && k == Current(s, st.b.returned[r])
    requires Apply(s, st, Recv(r, m)) != st
    requires Shape(s, Apply(s, st, Recv(r, m))) && !Apply(s, st, Recv(r, m)).local[r].failed
    ensures BodyProgress(s, Apply(s, st, Recv(r, m)).local[r], r, k) > BodyProgress(s, st.local[r], r, k)
  {
  }

  /** A step inside the body of rank r leaves the barrier and the other ranks' variables alone. */
  lemma BodyFrame(s: Script, st: State, step: Step, q: nat)
    requires s.Valid() && Shape(s, st) && q < s.n && (step.Act? || step.Recv?)
    ensures Apply(s, st, step).b == st.b && |Apply(s, st, step).local| == s.n
    ensures q != step.rank ==> Apply(s, st, step).local[q] == st.local[q]
    ensures Apply(s, st, step) != st ==> step.rank < s.n && InBody(s, st, step.rank)
  {
  }

  /** An effective step inside the body of rank r brings r on and changes no other rank. */
  lemma BodyMoves(s: Script, st: State, step: Step, q: nat)
    requires Inv(s, st) && q < s.n && (step.Act? || step.Recv?) && Apply(s, st, step) != st
    requires Inv(s, Apply(s, st, step))
    ensures Done(s, Apply(s, st, step), q) >= Done(s, st, q) + if q == step.rank then 1 else 0
    ensures Apply(s, st, step).b == st.b
  {
    var r := step.rank;
    BodyFrame(s, st, step, q);
    var k := Current(s, st.b.returned[r]);
    BodyLocal(s, st, r, k);
    NotFailed(s, Apply(s, st, step), r);
    if step.Act? {
      ActProgress(s, st, r, k);
    } else {
      RecvProgress(s, st, r, step.msg, k);
    }
  }

  lemma NotFailed(s: Script, st: State, r: nat)
    requires Inv(s, st) && r < s.n
    ensures !st.local[r].failed
  {
    assert RankInv(s, st, r);
  }
}
