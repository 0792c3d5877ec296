/** Every step keeps the mailboxes and the variables of the descriptor exchanges in order, and some rank can move. */
module ExchangeFdsSteps {
  import opened Sequences
  import opened BrokerCalls
  import Barrier
  import opened ExchangeFds

  /** Inside call k every rank's variables are about call k. */
  lemma InsideCall(s: Script, st: State)
    requires Inv(s, st) && BodyAt(s, st.b.generation)
    ensures CallInv(s, st.mail, st.local, Current(s, st.b.generation))
  {
    OpenFds(s, st.b.generation);
    forall q | 0 <= q < s.n ensures LocalInv(s, st.local[q], q, Current(s, st.b.generation)) {
      assert RankInv(s, st, q) && Barrier.RankInv(s.n, st.b, q);
    }
    forall q | 0 <= q < s.n ensures NetInv(s, st.mail[q], st.local, Current(s, st.b.generation), q) {
      assert MailInv(s, st, q);
    }
  }

  lemma BodyGeneration(s: Script, st: State, r: nat)
    requires Inv(s, st) && r < s.n && InBody(s, st, r)
    ensures st.b.generation == st.b.returned[r] && BodyAt(s, st.b.generation)
  {
    assert Barrier.RankInv(s.n, st.b, r);
  }

  /** A step inside the body of rank r, given what it does to mail and variables. */
  lemma BodyInv(s: Script, st: State, r: nat, mail: seq<multiset<Msg>>, l: Local)
    requires Inv(s, st) && r < s.n && InBody(s, st, r)
    requires CallInv(s, mail, st.local[r := l], Current(s, st.b.generation))
    requires |l.gathered| == s.n && |l.dst| == s.n
    ensures Inv(s, st.(mail := mail, local := st.local[r := l]))
  {
    var st' := st.(mail := mail, local := st.local[r := l]);
    BodyGeneration(s, st, r);
    InsideCall(s, st);
    forall q | 0 <= q < s.n ensures RankInv(s, st', q) && MailInv(s, st', q) {
      assert RankInv(s, st, q) && Barrier.RankInv(s.n, st.b, q);
      assert LocalInv(s, st'.local[q], q, Current(s, st.b.generation));
      assert NetInv(s, mail[q], st'.local, Current(s, st.b.generation), q);
    }
  }

  lemma FreshInv(s: Script, k: nat, r: nat)
    requires s.Valid() && r < s.n && s.call(k).PassesFds()
    ensures LocalInv(s, Fresh(s, k, r), r, k) && Fresh(s, k, r).got == {} && !Fresh(s, k, r).closed
  {
  }

  lemma FreshNet(s: Script, local: seq<Local>, k: nat, r: nat)
    requires s.Valid() && |local| == s.n && r < s.n
    requires forall q: nat :: q < s.n ==> local[q] == Fresh(s, k, q)
    ensures NetInv(s, multiset{}, local, k, r)
  {
  }

  /** What its barrier step does to the syncing rank: it starts a sync, or it stays where it is in one. */
  lemma SyncSelf(s: Script, st: State, r: nat)
    requires Inv(s, st) && r < s.n && !InBody(s, st, r) && !st.local[r].failed
    requires Shape(s, Apply(s, st, Sync(r)))
    ensures var st' := Apply(s, st, Sync(r));
            if st.b.pc[r].Outside? && st.b.owner == -1
            then st'.b.pc[r].Locked? && Started(st.b, r) == st.b.returned[r] && Started(st'.b, r) == st.b.returned[r] + 1
            else Started(st'.b, r) == Started(st.b, r) && (st.b.pc[r].Outside? ==> st'.b.pc[r].Outside?)
    ensures Apply(s, st, Sync(r)).local[r] ==
            if Opening(s, st, r) then Fresh(s, Current(s, st.b.returned[r]), r) else st.local[r]
  {
    assert Barrier.RankInv(s.n, st.b, r);
  }

  /** The syncing rank itself. */
  lemma SyncSelfInv(s: Script, st: State, r: nat)
    requires Inv(s, st) && r < s.n && !InBody(s, st, r) && !st.local[r].failed
    requires Shape(s, Apply(s, st, Sync(r)))
    ensures RankInv(s, Apply(s, st, Sync(r)), r)
  {
    assert RankInv(s, st, r);
    SyncSelf(s, st, r);
    NextPlace(s, st.b.returned[r]);
    if Opening(s, st, r) {
      FreshInv(s, Current(s, st.b.returned[r]), r);
    }
  }

  /** What a barrier step of r leaves of another rank: asleep or awake, but as far as before. */
  lemma SyncOther(s: Script, st: State, r: nat, q: nat)
    requires Inv(s, st) && r < s.n && q < s.n && q != r && !InBody(s, st, r) && !st.local[r].failed
    ensures var st' := Apply(s, st, Sync(r));
            && Shape(s, st') && st'.local[q] == st.local[q] && Started(st'.b, q) == Started(st.b, q)
            && (st'.b.pc[q].Outside? <==> st.b.pc[q].Outside?)
  {
  }

  lemma SyncRankInv(s: Script, st: State, r: nat, q: nat)
    requires Inv(s, st) && r < s.n && q < s.n && !InBody(s, st, r) && !st.local[r].failed
    requires Shape(s, Apply(s, st, Sync(r)))
    ensures RankInv(s, Apply(s, st, Sync(r)), q)
  {
    assert RankInv(s, st, q);
    if q == r {
      SyncSelfInv(s, st, r);
    } else {
      SyncOther(s, st, r, q);
    }
  }

  /** The last rank into a barrier opens a call with everyone fresh, or closes one with everyone done. */
  lemma TurnOver(s: Script, st: State, r: nat, q: nat)
    requires Inv(s, st) && r < s.n && q < s.n && st.b.pc[r].Locked? && st.b.count + 1 == s.n
    ensures BodyAt(s, st.b.generation + 1) ==> st.local[q] == Fresh(s, Current(s, st.b.generation + 1), q)
    ensures BodyAt(s, st.b.generation) ==> st.local[q].closed
  {
    Barrier.CountedAll(s.n, st.b, r);
    if BodyAt(s, st.b.generation) {
      OpenFds(s, st.b.generation);
    }
    assert Barrier.RankInv(s.n, st.b, r) && Barrier.RankInv(s.n, st.b, q);
    assert RankInv(s, st, q);
  }

  lemma SyncMailInv(s: Script, st: State, r: nat, q: nat)
    requires Inv(s, st) && r < s.n && q < s.n && !InBody(s, st, r) && !st.local[r].failed
    requires Shape(s, Apply(s, st, Sync(r)))
    ensures MailInv(s, Apply(s, st, Sync(r)), q)
  {
    var st' := Apply(s, st, Sync(r));
    assert MailInv(s, st, q) && Barrier.RankInv(s.n, st.b, r);
    if st'.b.generation != st.b.generation {
      var g := st.b.generation;
      NextPlace(s, g);
      forall i: nat | i < s.n
        ensures BodyAt(s, g + 1) ==> st.local[i] == Fresh(s, Current(s, g + 1), i)
        ensures BodyAt(s, g) ==> st.local[i].closed
      {
        TurnOver(s, st, r, i);
      }
      if BodyAt(s, g + 1) {
        FreshNet(s, st.local, Current(s, g + 1), q);
      } else if BodyAt(s, g) {
        InsideCall(s, st);
        assert LocalInv(s, st.local[q], q, Current(s, g));
        ClosedIsEmpty(s, st.mail[q], st.local, Current(s, g), q);
      }
    }
  }

  lemma SyncInv(s: Script, st: State, r: nat)
    requires Inv(s, st) && r < s.n && !InBody(s, st, r) && !st.local[r].failed
    ensures Inv(s, Apply(s, st, Sync(r)))
  {
    Barrier.ApplyInv(s.n, st.b, Barrier.Advance(r));
    forall q | 0 <= q < s.n ensures RankInv(s, Apply(s, st, Sync(r)), q) && MailInv(s, Apply(s, st, Sync(r)), q) {
      SyncRankInv(s, st, r, q);
      SyncMailInv(s, st, r, q);
    }
  }

  lemma SpuriousInv(s: Script, st: State, r: nat)
    requires Inv(s, st) && r < s.n
    ensures Inv(s, Apply(s, st, Spurious(r)))
  {
    var st' := Apply(s, st, Spurious(r));
    Barrier.ApplyInv(s.n, st.b, Barrier.Spurious(r));
    forall q | 0 <= q < s.n ensures RankInv(s, st', q) && MailInv(s, st', q) {
      assert RankInv(s, st, q) && MailInv(s, st, q);
    }
  }

  lemma ActInv(s: Script, st: State, r: nat)
    requires Inv(s, st) && r < s.n && InBody(s, st, r)
    ensures Inv(s, Apply(s, st, Act(r)))
  {
    var st' := Apply(s, st, Act(r));
    BodyGeneration(s, st, r);
    InsideCall(s, st);
    var k := Current(s, st.b.generation);
    match s.call(k) {
      case Exchange => if r == 0 { HubActInv(s, st, k); } else { SpokeActInv(s, st, r, k); }
      case Broadcast(root) => BroadcastActInv(s, st, r, k, root);
      case _ =>
    }
    assert CallInv(s, st'.mail, st'.local, k);
    assert st'.local == st.local[r := st'.local[r]];
    assert LocalInv(s, st'.local[r], r, k);
    BodyInv(s, st, r, st'.mail, st'.local[r]);
  }

  lemma RecvStepInv(s: Script, st: State, r: nat, m: Msg)
    requires Inv(s, st) && r < s.n && InBody(s, st, r)
    ensures Inv(s, Apply(s, st, Recv(r, m)))
  {
    BodyGeneration(s, st, r);
    InsideCall(s, st);
    var k := Current(s, st.b.generation);
    if WantsMessage(s, st.local[r], r, k) && m in st.mail[r] {
      RecvInv(s, st, r, k, m);
      var l := Accept(s, st.local[r], r, k, m);
      assert LocalInv(s, st.local[r := l][r], r, k);
      BodyInv(s, st, r, st.mail[r := st.mail[r] - multiset{m}], l);
    }
  }

  /** Every step of every rank keeps the invariant. */
  lemma ApplyInv(s: Script, st: State, step: Step)
    requires Inv(s, st)
    ensures Inv(s, Apply(s, st, step))
  {
    var r := step.rank;
    if r < s.n {
      assert RankInv(s, st, r);
      match step
      case Sync(_) => if !InBody(s, st, r) { SyncInv(s, st, r); }
      case Spurious(_) => SpuriousInv(s, st, r);
      case Act(_) => if InBody(s, st, r) { ActInv(s, st, r); }
      case Recv(_, m) => if InBody(s, st, r) { RecvStepInv(s, st, r, m); }
    }
  }

  lemma ClosedResult(s: Script, l: Local, r: nat, k: nat)
    requires s.Valid() && r < s.n && |l.dst| == s.n && LocalInv(s, l, r, k) && l.closed
    ensures Result(s, l, r, k)
  {
    if s.call(k).Exchange? && r > 0 {
      AllReceived(s.n, r, l.got);
    }
  }

  /** A mailbox is empty unless its rank still waits for messages. */
  lemma MailEmpty(s: Script, st: State, r: nat)
    requires Inv(s, st) && r < s.n
    ensures !st.local[r].failed
    ensures !BodyAt(s, st.b.generation) || st.local[r].closed ==> st.mail[r] == multiset{}
  {
    assert RankInv(s, st, r) && MailInv(s, st, r);
    if BodyAt(s, st.b.generation) && st.local[r].closed {
      InsideCall(s, st);
      assert LocalInv(s, st.local[r], r, Current(s, st.b.generation));
      ClosedIsEmpty(s, st.mail[r], st.local, Current(s, st.b.generation), r);
    }
  }

  // ---------- no deadlock ----------

  /** A rank that still waits for messages finds one, once everybody it waits for has sent. */
  lemma MessageWaiting(s: Script, st: State, k: nat, r: nat, src: int)
    requires s.Valid() && Shape(s, st) && CallInv(s, st.mail, st.local, k) && r < s.n
    requires src in SentTo(s, st.local, k, r) && src !in st.local[r].got
    ensures Msg(s.file(src, k), src) in st.mail[r]
  {
  }

  /** Someone still missing from `got`. */
  lemma MissingSource(n: nat, r: nat, got: set<int>) returns (src: int)
    requires r < n && got <= Others(n, r) && |got| < n - 1
    ensures src in Others(n, r) && src !in got
  {
    RangeSize(0, n);
    assert |Others(n, r)| == n - 1;
    if Others(n, r) <= got {
      SubsetSize(Others(n, r), got);
    }
    src :| src in Others(n, r) && src !in got;
  }

  ghost predicate Moves(s: Script, st: State, step: Step)
    requires Inv(s, st)
  {
    Apply(s, st, step) != st
  }

  lemma RecvMoves(s: Script, st: State, q: nat, src: int)
    requires Inv(s, st) && q < s.n && InBody(s, st, q)
    requires var k := Current(s, st.b.generation);
             WantsMessage(s, st.local[q], q, k) && src in SentTo(s, st.local, k, q) && src !in st.local[q].got
    ensures Moves(s, st, Recv(q, Msg(s.file(src, Current(s, st.b.generation)), src)))
  {
    var k := Current(s, st.b.generation);
    BodyGeneration(s, st, q);
    InsideCall(s, st);
    MessageWaiting(s, st, k, q, src);
    var m := Msg(s.file(src, k), src);
    assert Accept(s, st.local[q], q, k, m) != st.local[q];
    assert Apply(s, st, Recv(q, m)).local[q] == Accept(s, st.local[q], q, k, m);
  }

  lemma ActMoves(s: Script, st: State, q: nat)
    requires Inv(s, st) && q < s.n && InBody(s, st, q)
    requires !WantsMessage(s, st.local[q], q, Current(s, st.b.generation))
    ensures Moves(s, st, Act(q))
  {
    BodyGeneration(s, st, q);
    assert Apply(s, st, Act(q)).local[q] != st.local[q];
  }

  /** A rank inside call k that is not done moves, if rank 0 (or the root) cannot be waiting for it. */
  lemma ExchangeMoves(s: Script, st: State, r: nat) returns (step: Step)
    requires Inv(s, st) && r < s.n && InBody(s, st, r) && s.call(Current(s, st.b.generation)).Exchange?
    requires forall q :: 0 <= q < s.n ==> st.local[q].closed || InBody(s, st, q)
    ensures (step.Act? || step.Recv?) && Moves(s, st, step)
    ensures step.rank < s.n && (step.Recv? ==> step.msg in st.mail[step.rank])
  {
    var k := Current(s, st.b.generation);
    BodyGeneration(s, st, r);
    InsideCall(s, st);
    var hub := st.local[0];
    assert LocalInv(s, hub, 0, k) && LocalInv(s, st.local[r], r, k);
    if q: nat :| q < s.n && q > 0 && !st.local[q].sent {
      assert LocalInv(s, st.local[q], q, k);
      ActMoves(s, st, q);
      step := Act(q);
    } else if hub.received < s.n - 1 {
      var src := MissingSource(s.n, 0, hub.got);
      assert src in SentTo(s, st.local, k, 0);
      RecvMoves(s, st, 0, src);
      step := Recv(0, Msg(s.file(src, k), src));
    } else if !hub.closed {
      ActMoves(s, st, 0);
      step := Act(0);
    } else if st.local[r].received < s.n - 1 {
      var src := MissingSource(s.n, r, st.local[r].got);
      assert src in SentTo(s, st.local, k, r);
      RecvMoves(s, st, r, src);
      step := Recv(r, Msg(s.file(src, k), src));
    } else {
      ActMoves(s, st, r);
      step := Act(r);
    }
  }

  lemma BroadcastMoves(s: Script, st: State, r: nat) returns (step: Step)
    requires Inv(s, st) && r < s.n && InBody(s, st, r) && s.call(Current(s, st.b.generation)).Broadcast?
    requires forall q :: 0 <= q < s.n ==> st.local[q].closed || InBody(s, st, q)
    ensures (step.Act? || step.Recv?) && Moves(s, st, step)
    ensures step.rank < s.n && (step.Recv? ==> step.msg in st.mail[step.rank])
  {
    var k := Current(s, st.b.generation);
    var root := s.call(k).root;
    BodyGeneration(s, st, r);
    InsideCall(s, st);
    assert LocalInv(s, st.local[r], r, k) && LocalInv(s, st.local[root], root, k);
    if !st.local[root].closed {
      ActMoves(s, st, root);
      step := Act(root);
    } else if st.local[r].received < 1 {
      RecvMoves(s, st, r, root);
      step := Recv(r, Msg(s.file(root, k), root));
    } else {
      ActMoves(s, st, r);
      step := Act(r);
    }
  }

  /** Once some rank is inside the body, every rank is inside it or done with it - unless it is
      still on its way out of the opening barrier. */
  lemma BodyOrClosed(s: Script, st: State, p: nat)
    requires Inv(s, st) && p < s.n && InBody(s, st, p)
    requires forall q :: 0 <= q < s.n ==> InBody(s, st, q) || st.b.pc[q].Waiting?
    ensures forall q :: 0 <= q < s.n ==> st.local[q].closed || InBody(s, st, q)
  {
    BodyGeneration(s, st, p);
    OpenFds(s, st.b.generation);
    forall q | 0 <= q < s.n ensures st.local[q].closed || InBody(s, st, q) {
      assert RankInv(s, st, q) && Barrier.RankInv(s.n, st.b, q);
    }
  }
}
