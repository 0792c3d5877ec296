/**
 Passing file descriptors between ranks: `exchange_fds`, a star through rank 0 over datagram
 mailboxes, and `broadcast_fd`.  They follow each other, and the broker's other calls, in any order
 that all ranks share; messages may be received in any order.
 */
module ExchangeFds {
  import opened Sequences
  import opened BrokerCalls
  import Barrier

  datatype Msg = Msg(fd: int, src: int)

  /** A rank's variables inside one call. */
  datatype Local = Local(
    sent: bool,          // its own descriptor went to rank 0
    nextDst: nat,        // send loop: destination rank
    nextSrc: nat,        // send loop of rank 0: source rank
    received: nat,       // receive loop counter
    got: set<int>,       // history: the sources received so far
    gathered: seq<int>,  // rank 0's table
    dst: seq<int>,       // the caller's dst_fds
    one: int,            // the caller's dst_fd in a broadcast
    closed: bool,        // body finished, ready for the closing barrier
    failed: bool)        // one of the error exits was taken

  datatype State = State(b: Barrier.State, mail: seq<multiset<Msg>>, local: seq<Local>)

  datatype Step = Sync(rank: nat) | Spurious(rank: nat) | Act(rank: nat) | Recv(rank: nat, msg: Msg)

  function Fresh(s: Script, k: nat, r: nat): (l: Local)
    requires s.n > 0
    ensures |l.gathered| == s.n && |l.dst| == s.n
  {
    var none := seq(s.n, i => -1);
    Local(false, if s.call(k).Exchange? then 1 else 0, 0, 0, {},
          if r == 0 then none[0 := s.file(0, k)] else none, none, -1, false, false)
  }

  ghost predicate Shape(s: Script, st: State) {
    && Barrier.Shape(s.n, st.b) && |st.mail| == s.n && |st.local| == s.n
    && forall r :: 0 <= r < s.n ==> |st.local[r].gathered| == s.n && |st.local[r].dst| == s.n
  }

  function Deliver(mail: seq<multiset<Msg>>, dst: nat, m: Msg): seq<multiset<Msg>>
    requires dst < |mail|
  {
    mail[dst := mail[dst] + multiset{m}]
  }

  /** Rank 0 in `exchange_fds`: after its receive loop, the doubly nested send loop, then the results. */
  function HubAct(s: Script, st: State): State
    requires s.Valid() && Shape(s, st)
  {
    var l := st.local[0];
    if l.received < s.n - 1 then st
    else if l.nextDst < s.n then
      if l.nextSrc >= s.n then
        st.(local := st.local[0 := l.(nextDst := l.nextDst + 1, nextSrc := 0)])
      else if l.nextSrc == l.nextDst then
        st.(local := st.local[0 := l.(nextSrc := l.nextSrc + 1)])
      else if l.gathered[l.nextSrc] < 0 then
        st.(local := st.local[0 := l.(failed := true)])
      else
        st.(mail := Deliver(st.mail, l.nextDst, Msg(l.gathered[l.nextSrc], l.nextSrc)),
            local := st.local[0 := l.(nextSrc := l.nextSrc + 1)])
    else
      st.(local := st.local[0 := l.(dst := l.gathered[0 := -1], closed := true)])
  }

  /** Any other rank in `exchange_fds`: send to rank 0, and close the call after its receive loop. */
  function SpokeAct(s: Script, st: State, r: nat, k: nat): State
    requires s.Valid() && Shape(s, st) && r < s.n
  {
    var l := st.local[r];
    if !l.sent then
      st.(mail := Deliver(st.mail, 0, Msg(s.file(r, k), r)), local := st.local[r := l.(sent := true)])
    else if l.received < s.n - 1 then st
    else st.(local := st.local[r := l.(dst := l.dst[r := -1], closed := true)])
  }

  function BroadcastAct(s: Script, st: State, r: nat, k: nat, root: nat): State
    requires s.Valid() && Shape(s, st) && r < s.n && root < s.n
  {
    var l := st.local[r];
    if r == root then
      if l.nextDst < s.n then
        st.(mail := if l.nextDst == root then st.mail else Deliver(st.mail, l.nextDst, Msg(s.file(root, k), root)),
            local := st.local[r := l.(nextDst := l.nextDst + 1)])
      else st.(local := st.local[r := l.(closed := true)])
    else if l.received < 1 then st
    else st.(local := st.local[r := l.(closed := true)])
  }

  /** Is the rank blocked in recv_fd? */
  predicate WantsMessage(s: Script, l: Local, r: nat, k: nat) {
    match s.call(k)
    case Exchange => (r == 0 || l.sent) && l.received < s.n - 1
    case Broadcast(root) => r != root && l.received < 1
    case Plain | Data => false
  }

  /** The local effect of one received message, with the source checks of the code. */
  function Accept(s: Script, l: Local, r: nat, k: nat, m: Msg): Local
    requires |l.gathered| == s.n && |l.dst| == s.n
  {
    var l' := l.(received := l.received + 1, got := l.got + {m.src});
    match s.call(k)
    case Exchange =>
      if r == 0 then
        if m.src <= 0 || m.src >= s.n then l.(failed := true) else l'.(gathered := l.gathered[m.src := m.fd])
      else
        if m.src < 0 || m.src >= s.n || m.src == r then l.(failed := true) else l'.(dst := l.dst[m.src := m.fd])
    case Broadcast(root) =>
      if m.fd < 0 || m.src != root then l.(failed := true) else l'.(one := m.fd)
    case Plain | Data => l
  }

  /** A message is refused exactly if its source is no other rank, or in a broadcast not the root, or if a
      broadcast carries no descriptor. */
  lemma AcceptRefuses(s: Script, l: Local, r: nat, k: nat, m: Msg)
    requires r < s.n && !l.failed && |l.gathered| == s.n && |l.dst| == s.n
    ensures s.call(k).Exchange? ==> (Accept(s, l, r, k, m).failed <==> m.src < 0 || m.src >= s.n || m.src == r)
    ensures s.call(k).Broadcast? ==> (Accept(s, l, r, k, m).failed <==> m.fd < 0 || m.src != s.call(k).root)
  {
  }

  predicate InBody(s: Script, st: State, r: nat)
    requires r < |st.b.pc| && r < |st.b.returned| && r < |st.local|
  {
    st.b.pc[r].Outside? && BodyAt(s, st.b.returned[r]) && !st.local[r].failed && !st.local[r].closed
  }

  /** A rank that enters the opening barrier starts with fresh variables. */
  predicate Opening(s: Script, st: State, r: nat)
    requires r < |st.b.pc| && r < |st.b.returned|
  {
    st.b.pc[r].Outside? && BodyAt(s, st.b.returned[r] + 1) && st.b.owner == -1
  }

  function Apply(s: Script, st: State, step: Step): State
    requires s.Valid() && Shape(s, st)
  {
    var r := step.rank;
    if r >= s.n then st
    else
      var k := Current(s, st.b.returned[r]);
      match step
      case Sync(_) =>
        if InBody(s, st, r) || st.local[r].failed then st
        else st.(b := Barrier.AdvanceRank(s.n, st.b, r),
                 local := if Opening(s, st, r) then st.local[r := Fresh(s, k, r)] else st.local)
      case Spurious(_) => st.(b := Barrier.Apply(s.n, st.b, Barrier.Spurious(r)))
      case Act(_) =>
        if !InBody(s, st, r) then st
        else (match s.call(k)
              case Exchange => if r == 0 then HubAct(s, st) else SpokeAct(s, st, r, k)
              case Broadcast(root) => BroadcastAct(s, st, r, k, root)
              case Plain | Data => st)
      case Recv(_, m) =>
        if InBody(s, st, r) && WantsMessage(s, st.local[r], r, k) && m in st.mail[r] then
          st.(mail := st.mail[r := st.mail[r] - multiset{m}],
              local := st.local[r := Accept(s, st.local[r], r, k, m)])
        else st
  }

  // ---------- invariant ----------

  /** Rank 0 has already sent source src to destination dst. */
  predicate Forwarded(hub: Local, dst: int, src: int) {
    dst < hub.nextDst || (dst == hub.nextDst && src < hub.nextSrc)
  }

  /** Sources whose message has been sent to rank r in call k. */
  function SentTo(s: Script, local: seq<Local>, k: nat, r: nat): set<int>
    requires s.Valid() && |local| == s.n && r < s.n
  {
    match s.call(k)
    case Exchange =>
      if r == 0 then set i | 1 <= i < s.n && local[i].sent
      else set i | i in Others(s.n, r) && Forwarded(local[0], r, i)
    case Broadcast(root) =>
      if r != root && r < local[root].nextDst then {root as int} else {}
    case Plain | Data => {}
  }

  /** The mailbox holds exactly one message, with the right descriptor, per source in flight. */
  ghost predicate MailIs(s: Script, mail: multiset<Msg>, k: nat, sources: set<int>) {
    forall m: Msg :: mail[m] == if m.src in sources && m.fd == s.file(m.src, k) then 1 else 0
  }

  function Others(n: nat, r: nat): set<int> {
    Range(0, n) - {r}
  }

  ghost predicate HubInv(s: Script, l: Local, k: nat) {
    && |l.gathered| == s.n && |l.dst| == s.n && l.got <= Others(s.n, 0) && |l.got| == l.received
    && (forall i :: 0 <= i < s.n ==> l.gathered[i] == if i == 0 || i in l.got then s.file(i, k) else -1)
    && 1 <= l.nextDst <= s.n && l.nextSrc <= s.n && (l.nextDst > 1 || l.nextSrc > 0 ==> l.received == s.n - 1)
    && (l.nextDst >= s.n ==> l.nextSrc == 0)
    && (l.closed ==> l.received == s.n - 1 && l.nextDst >= s.n && Result(s, l, 0, k))
  }

  ghost predicate SpokeInv(s: Script, l: Local, r: nat, k: nat) {
    && |l.gathered| == s.n && |l.dst| == s.n && l.got <= Others(s.n, r) && |l.got| == l.received
    && (forall i :: 0 <= i < s.n ==> l.dst[i] == if i in l.got then s.file(i, k) else -1)
    && (l.closed ==> l.received == s.n - 1 && l.sent)
  }

  ghost predicate BroadcastInv(s: Script, l: Local, r: nat, k: nat, root: nat) {
    && |l.gathered| == s.n && |l.dst| == s.n
    && (r == root ==> l.nextDst <= s.n && l.got == {} && (l.closed ==> l.nextDst == s.n))
    && (r != root ==>
          && l.received <= 1 && l.got == (if l.received == 0 then {} else {root as int})
          && (l.received == 1 ==> l.one == s.file(root, k))
          && (l.closed ==> l.received == 1))
  }

  ghost predicate LocalInv(s: Script, l: Local, r: nat, k: nat)
    requires s.Valid()
  {
    && !l.failed
    && match s.call(k) {
         case Exchange => if r == 0 then HubInv(s, l, k) else SpokeInv(s, l, r, k)
         case Broadcast(root) => BroadcastInv(s, l, r, k, root)
         case Plain | Data => false
       }
  }

  /** What the caller is promised. */
  ghost predicate Result(s: Script, l: Local, r: nat, k: nat)
    requires |l.dst| == s.n
  {
    match s.call(k)
    case Exchange => forall i :: 0 <= i < s.n ==> l.dst[i] == if i == r then -1 else s.file(i, k)
    case Broadcast(root) => r != root ==> l.one == s.file(root, k)
    case Plain | Data => false
  }

  /** Barrier count of a rank, counting a sync from the moment it starts. */
  function Started(b: Barrier.State, r: nat): nat
    requires r < |b.pc| && r < |b.entered|
  {
    if b.pc[r].Locked? then b.entered[r] + 1 else b.entered[r]
  }

  ghost predicate RankInv(s: Script, st: State, r: nat)
    requires s.Valid() && Shape(s, st) && r < s.n
  {
    var l, e := st.local[r], Started(st.b, r);
    && !l.failed
    && (LastFds(s, e).Some? ==> LocalInv(s, l, r, LastFds(s, e).value) && (BodyAt(s, e) || l.closed))
    && (BodyAt(s, e) && !st.b.pc[r].Outside? ==> l == Fresh(s, Current(s, e), r))
  }

  /** Messages to r: what r has got is among what was sent, and the rest is in its mailbox. */
  ghost predicate NetInv(s: Script, mail: multiset<Msg>, local: seq<Local>, k: nat, r: nat)
    requires s.Valid() && |local| == s.n && r < s.n
  {
    && local[r].got <= SentTo(s, local, k, r)
    && MailIs(s, mail, k, SentTo(s, local, k, r) - local[r].got)
  }

  /** Between calls every mailbox is empty; inside call k it holds what is in flight. */
  ghost predicate MailInv(s: Script, st: State, r: nat)
    requires s.Valid() && Shape(s, st) && r < s.n
  {
    if BodyAt(s, st.b.generation) then NetInv(s, st.mail[r], st.local, Current(s, st.b.generation), r)
    else st.mail[r] == multiset{}
  }

  ghost predicate Inv(s: Script, st: State) {
    && s.Valid() && Shape(s, st) && Barrier.Inv(s.n, st.b)
    && (forall r :: 0 <= r < s.n ==> RankInv(s, st, r))
    && (forall r :: 0 <= r < s.n ==> MailInv(s, st, r))
  }

  // ---------- the network inside one call ----------

  lemma AllReceived(n: nat, r: nat, got: set<int>)
    requires r < n && got <= Others(n, r) && |got| == n - 1
    ensures got == Others(n, r)
  {
    RangeSize(0, n);
    assert |Others(n, r)| == n - 1;
    SubsetSize(got, Others(n, r));
  }

  lemma GotBound(n: nat, r: nat, got: set<int>)
    requires r < n && got <= Others(n, r)
    ensures |got| <= n - 1
  {
    RangeSize(0, n);
    SubsetSize(got, Others(n, r));
  }

  /** A rank that is done with a call has an empty mailbox. */
  lemma ClosedIsEmpty(s: Script, mail: multiset<Msg>, local: seq<Local>, k: nat, r: nat)
    requires s.Valid() && |local| == s.n && r < s.n
    requires LocalInv(s, local[r], r, k) && local[r].closed && NetInv(s, mail, local, k, r)
    ensures mail == multiset{}
  {
    var sent, got := SentTo(s, local, k, r), local[r].got;
    if s.call(k).Exchange? {
      AllReceived(s.n, r, got);
      assert sent <= Others(s.n, r);
    }
    assert sent - got == {};
    assert forall m: Msg :: mail[m] == 0;
  }

  lemma MailTake(s: Script, mail: multiset<Msg>, k: nat, sources: set<int>, m: Msg)
    requires s.Valid() && MailIs(s, mail, k, sources) && m in mail
    ensures m.src in sources && m.fd == s.file(m.src, k)
    ensures MailIs(s, mail - multiset{m}, k, sources - {m.src})
  {
  }

  ghost predicate CallInv(s: Script, mail: seq<multiset<Msg>>, local: seq<Local>, k: nat)
    requires s.Valid()
  {
    && |mail| == s.n && |local| == s.n
    && (forall q :: 0 <= q < s.n ==> LocalInv(s, local[q], q, k))
    && (forall q :: 0 <= q < s.n ==> NetInv(s, mail[q], local, k, q))
  }

  /** Only the send cursors decide what was sent. */
  lemma SentSame(s: Script, local: seq<Local>, k: nat, r: nat, l: Local, q: nat)
    requires s.Valid() && |local| == s.n && r < s.n && q < s.n
    requires l.sent == local[r].sent && l.nextDst == local[r].nextDst && l.nextSrc == local[r].nextSrc
    ensures SentTo(s, local[r := l], k, q) == SentTo(s, local, k, q)
  {
  }

  /** A step of rank r that neither sends nor receives. */
  lemma QuietStep(s: Script, mail: seq<multiset<Msg>>, local: seq<Local>, k: nat, r: nat, l: Local)
    requires s.Valid() && CallInv(s, mail, local, k) && r < s.n
    requires LocalInv(s, l, r, k) && l.got == local[r].got
    requires forall q :: 0 <= q < s.n ==> SentTo(s, local[r := l], k, q) == SentTo(s, local, k, q)
    ensures CallInv(s, mail, local[r := l], k)
  {
  }

  /** The rank's step leaves its cursors alone. */
  lemma StillStep(s: Script, mail: seq<multiset<Msg>>, local: seq<Local>, k: nat, r: nat, l: Local)
    requires s.Valid() && CallInv(s, mail, local, k) && r < s.n
    requires LocalInv(s, l, r, k) && l.got == local[r].got
    requires l.sent == local[r].sent && l.nextDst == local[r].nextDst && l.nextSrc == local[r].nextSrc
    ensures CallInv(s, mail, local[r := l], k)
  {
    forall q | 0 <= q < s.n ensures SentTo(s, local[r := l], k, q) == SentTo(s, local, k, q) {
      SentSame(s, local, k, r, l, q);
    }
    QuietStep(s, mail, local, k, r, l);
  }

  /** A step of rank r that sends one message, from source src, to rank dst. */
  lemma SendStep(s: Script, mail: seq<multiset<Msg>>, local: seq<Local>, k: nat, r: nat, l: Local, dst: nat, src: int)
    requires s.Valid() && CallInv(s, mail, local, k) && r < s.n && dst < s.n
    requires LocalInv(s, l, r, k) && l.got == local[r].got
    requires src !in SentTo(s, local, k, dst)
    requires forall q :: 0 <= q < s.n ==>
               SentTo(s, local[r := l], k, q) == SentTo(s, local, k, q) + if q == dst then {src} else {}
    ensures CallInv(s, Deliver(mail, dst, Msg(s.file(src, k), src)), local[r := l], k)
  {
    var local', mail' := local[r := l], Deliver(mail, dst, Msg(s.file(src, k), src));
    forall q | 0 <= q < s.n ensures NetInv(s, mail'[q], local', k, q) {
      assert NetInv(s, mail[q], local, k, q);
      assert local'[q].got == local[q].got;
      if q == dst {
        NetDeliver(s, mail[q], local, local', k, q, src);
      } else {
        NetFrame(s, mail[q], local, local', k, q);
      }
    }
    forall q | 0 <= q < s.n ensures LocalInv(s, local'[q], q, k) {
      assert LocalInv(s, local[q], q, k);
    }
  }

  lemma NetFrame(s: Script, mail: multiset<Msg>, local: seq<Local>, local': seq<Local>, k: nat, q: nat)
    requires s.Valid() && |local| == s.n && |local'| == s.n && q < s.n
    requires NetInv(s, mail, local, k, q) && local'[q].got == local[q].got
    requires SentTo(s, local', k, q) == SentTo(s, local, k, q)
    ensures NetInv(s, mail, local', k, q)
  {
  }

  lemma NetDeliver(s: Script, mail: multiset<Msg>, local: seq<Local>, local': seq<Local>, k: nat, q: nat, src: int)
    requires s.Valid() && |local| == s.n && |local'| == s.n && q < s.n
    requires NetInv(s, mail, local, k, q) && local'[q].got == local[q].got
    requires src !in SentTo(s, local, k, q) && SentTo(s, local', k, q) == SentTo(s, local, k, q) + {src}
    ensures NetInv(s, mail + multiset{Msg(s.file(src, k), src)}, local', k, q)
  {
  }

  lemma NetTake(s: Script, mail: multiset<Msg>, local: seq<Local>, local': seq<Local>, k: nat, q: nat, m: Msg)
    requires s.Valid() && |local| == s.n && |local'| == s.n && q < s.n
    requires NetInv(s, mail, local, k, q) && m in mail && local'[q].got == local[q].got + {m.src}
    requires SentTo(s, local', k, q) == SentTo(s, local, k, q)
    ensures NetInv(s, mail - multiset{m}, local', k, q)
  {
  }

  lemma HubActInv(s: Script, st: State, k: nat)
    requires s.Valid() && Shape(s, st) && CallInv(s, st.mail, st.local, k) && s.call(k).Exchange?
    requires !st.local[0].closed
    ensures CallInv(s, HubAct(s, st).mail, HubAct(s, st).local, k)
  {
    var l := st.local[0];
    assert LocalInv(s, l, 0, k) && HubInv(s, l, k);
    GotBound(s.n, 0, l.got);
    if l.received >= s.n - 1 {
      AllReceived(s.n, 0, l.got);
      if l.nextDst < s.n {
        HubSend(s, st, k);
      } else {
        StillStep(s, st.mail, st.local, k, 0, l.(dst := l.gathered[0 := -1], closed := true));
      }
    }
  }

  /** Rank 0's local state after one turn of its send loop. */
  function HubNext(s: Script, l: Local): Local {
    if l.nextSrc >= s.n then l.(nextDst := l.nextDst + 1, nextSrc := 0) else l.(nextSrc := l.nextSrc + 1)
  }

  lemma HubNextSent(s: Script, local: seq<Local>, k: nat, q: nat)
    requires s.Valid() && |local| == s.n && q < s.n && s.call(k).Exchange?
    requires 0 < local[0].nextDst < s.n
    ensures var l := local[0];
            var sends := l.nextSrc < s.n && l.nextSrc != l.nextDst;
            && SentTo(s, local[0 := HubNext(s, l)], k, q) ==
                 SentTo(s, local, k, q) + (if q == l.nextDst && sends then {l.nextSrc as int} else {})
            && (q == l.nextDst ==> l.nextSrc !in SentTo(s, local, k, q))
  {
  }

  lemma HubNextInv(s: Script, l: Local, k: nat)
    requires s.Valid() && HubInv(s, l, k) && l.received == s.n - 1 && l.nextDst < s.n && !l.closed
    ensures HubInv(s, HubNext(s, l), k) && HubNext(s, l).got == l.got
  {
  }

  /** What one turn of the send loop does, once every descriptor has been gathered. */
  lemma HubTurn(s: Script, st: State, k: nat)
    requires s.Valid() && Shape(s, st) && HubInv(s, st.local[0], k)
    requires var l := st.local[0]; l.received == s.n - 1 && l.nextDst < s.n && l.got == Others(s.n, 0)
    ensures var l := st.local[0];
            && HubAct(s, st).local == st.local[0 := HubNext(s, l)]
            && HubAct(s, st).mail ==
                 if l.nextSrc < s.n && l.nextSrc != l.nextDst
                 then Deliver(st.mail, l.nextDst, Msg(s.file(l.nextSrc, k), l.nextSrc)) else st.mail
  {
  }

  lemma HubSend(s: Script, st: State, k: nat)
    requires s.Valid() && Shape(s, st) && CallInv(s, st.mail, st.local, k) && s.call(k).Exchange?
    requires var l := st.local[0]; l.received == s.n - 1 && l.nextDst < s.n && l.got == Others(s.n, 0) && !l.closed
    ensures CallInv(s, HubAct(s, st).mail, HubAct(s, st).local, k)
  {
    var l := st.local[0];
    assert LocalInv(s, l, 0, k);
    HubNextInv(s, l, k);
    HubTurn(s, st, k);
    HubLoopStep(s, st.mail, st.local, k, HubNext(s, l), l.nextDst, l.nextSrc);
  }

  lemma HubLoopStep(s: Script, mail: seq<multiset<Msg>>, local: seq<Local>, k: nat, l': Local, dst: nat, src: nat)
    requires s.Valid() && CallInv(s, mail, local, k) && s.call(k).Exchange?
    requires dst == local[0].nextDst && src == local[0].nextSrc && 0 < dst < s.n
    requires l' == HubNext(s, local[0]) && LocalInv(s, l', 0, k)
    ensures CallInv(s, if src < s.n && src != dst then Deliver(mail, dst, Msg(s.file(src, k), src)) else mail,
                    local[0 := l'], k)
  {
    HubNextSent(s, local, k, dst);
    if src < s.n && src != dst {
      forall q | 0 <= q < s.n
        ensures SentTo(s, local[0 := l'], k, q) == SentTo(s, local, k, q) + if q == dst then {src as int} else {}
      {
        HubNextSent(s, local, k, q);
      }
      SendStep(s, mail, local, k, 0, l', dst, src);
    } else {
      forall q | 0 <= q < s.n ensures SentTo(s, local[0 := l'], k, q) == SentTo(s, local, k, q) {
        HubNextSent(s, local, k, q);
      }
      QuietStep(s, mail, local, k, 0, l');
    }
  }

  /** A rank's message to rank 0 changes what has been sent to rank 0 only. */
  lemma SpokeSends(s: Script, local: seq<Local>, r: nat, k: nat, q: nat)
    requires s.Valid() && |local| == s.n && s.call(k).Exchange? && 0 < r < s.n && q < s.n
    ensures SentTo(s, local[r := local[r].(sent := true)], k, q) ==
            SentTo(s, local, k, q) + if q == 0 then {r as int} else {}
  {
    var local' := local[r := local[r].(sent := true)];
    assert forall i :: 0 <= i < s.n && i != r ==> local'[i] == local[i];
  }

  lemma SpokeActInv(s: Script, st: State, r: nat, k: nat)
    requires s.Valid() && Shape(s, st) && CallInv(s, st.mail, st.local, k) && s.call(k).Exchange?
    requires 0 < r < s.n && !st.local[r].closed
    ensures CallInv(s, SpokeAct(s, st, r, k).mail, SpokeAct(s, st, r, k).local, k)
  {
    var l := st.local[r];
    assert LocalInv(s, l, r, k) && SpokeInv(s, l, r, k);
    if !l.sent {
      var l' := l.(sent := true);
      forall q | 0 <= q < s.n
        ensures SentTo(s, st.local[r := l'], k, q) == SentTo(s, st.local, k, q) + if q == 0 then {r as int} else {}
      {
        SpokeSends(s, st.local, r, k, q);
      }
      SendStep(s, st.mail, st.local, k, r, l', 0, r);
    } else if l.received >= s.n - 1 {
      GotBound(s.n, r, l.got);
      StillStep(s, st.mail, st.local, k, r, l.(dst := l.dst[r := -1], closed := true));
    }
  }

  lemma BroadcastActInv(s: Script, st: State, r: nat, k: nat, root: nat)
    requires s.Valid() && Shape(s, st) && CallInv(s, st.mail, st.local, k) && s.call(k) == Broadcast(root)
    requires r < s.n && !st.local[r].closed
    ensures CallInv(s, BroadcastAct(s, st, r, k, root).mail, BroadcastAct(s, st, r, k, root).local, k)
  {
    var l := st.local[r];
    assert LocalInv(s, l, r, k) && BroadcastInv(s, l, r, k, root);
    if r == root {
      if l.nextDst < s.n {
        var l' := l.(nextDst := l.nextDst + 1);
        if l.nextDst == root {
          QuietStep(s, st.mail, st.local, k, r, l');
        } else {
          SendStep(s, st.mail, st.local, k, r, l', l.nextDst, root);
        }
      } else {
        StillStep(s, st.mail, st.local, k, r, l.(closed := true));
      }
    } else if l.received >= 1 {
      StillStep(s, st.mail, st.local, k, r, l.(closed := true));
    }
  }

  /** Receiving m changes only the mailbox and the history of rank r. */
  lemma RecvNet(s: Script, mail: seq<multiset<Msg>>, local: seq<Local>, k: nat, r: nat, m: Msg, l: Local, q: nat)
    requires s.Valid() && |mail| == s.n && |local| == s.n && r < s.n && q < s.n && m in mail[r]
    requires NetInv(s, mail[q], local, k, q)
    requires l.got == local[r].got + {m.src}
    requires l.sent == local[r].sent && l.nextDst == local[r].nextDst && l.nextSrc == local[r].nextSrc
    ensures NetInv(s, mail[r := mail[r] - multiset{m}][q], local[r := l], k, q)
  {
    SentSame(s, local, k, r, l, q);
    if q == r {
      NetTake(s, mail[q], local, local[r := l], k, q, m);
    } else {
      NetFrame(s, mail[q], local, local[r := l], k, q);
    }
  }

  lemma RecvInv(s: Script, st: State, r: nat, k: nat, m: Msg)
    requires s.Valid() && Shape(s, st) && CallInv(s, st.mail, st.local, k)
    requires r < s.n && !st.local[r].closed && WantsMessage(s, st.local[r], r, k) && m in st.mail[r]
    ensures CallInv(s, st.mail[r := st.mail[r] - multiset{m}], st.local[r := Accept(s, st.local[r], r, k, m)], k)
  {
    var l' := Accept(s, st.local[r], r, k, m);
    var mail', local' := st.mail[r := st.mail[r] - multiset{m}], st.local[r := l'];
    ReceivedInv(s, st, r, k, m);
    forall q | 0 <= q < s.n ensures NetInv(s, mail'[q], local', k, q) && LocalInv(s, local'[q], q, k) {
      assert NetInv(s, st.mail[q], st.local, k, q) && LocalInv(s, st.local[q], q, k);
      RecvNet(s, st.mail, st.local, k, r, m, l', q);
    }
  }

  /** A message that has arrived is one the rank expects. */
  lemma ReceivedInv(s: Script, st: State, r: nat, k: nat, m: Msg)
    requires s.Valid() && Shape(s, st) && CallInv(s, st.mail, st.local, k)
    requires r < s.n && !st.local[r].closed && WantsMessage(s, st.local[r], r, k) && m in st.mail[r]
    ensures var l, l' := st.local[r], Accept(s, st.local[r], r, k, m);
            && LocalInv(s, l', r, k) && l'.got == l.got + {m.src}
            && l'.sent == l.sent && l'.nextDst == l.nextDst && l'.nextSrc == l.nextSrc
  {
    var l := st.local[r];
    assert LocalInv(s, l, r, k) && NetInv(s, st.mail[r], st.local, k, r);
    MailTake(s, st.mail[r], k, SentTo(s, st.local, k, r) - l.got, m);
    AcceptInv(s, l, r, k, m);
  }

  lemma AcceptInv(s: Script, l: Local, r: nat, k: nat, m: Msg)
    requires s.Valid() && r < s.n && LocalInv(s, l, r, k) && !l.closed && WantsMessage(s, l, r, k)
    requires |l.gathered| == s.n && |l.dst| == s.n
    requires m.src !in l.got && m.fd == s.file(m.src, k)
    requires s.call(k).Exchange? ==> m.src in Others(s.n, r)
    requires s.call(k).Broadcast? ==> m.src == s.call(k).root
    ensures var l' := Accept(s, l, r, k, m);
            && LocalInv(s, l', r, k) && l'.got == l.got + {m.src}
            && l'.sent == l.sent && l'.nextDst == l.nextDst && l'.nextSrc == l.nextSrc
  {
  }
}
