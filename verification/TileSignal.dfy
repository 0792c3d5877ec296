/**
 Tile-completion signalling between the GEMM epilogue and the communication stream.

 Every warp group of every tile runs the tail of the epilogue as a sequence of atomic
 steps on one shared integer array MM; the communication stream polls the segment
 counters in order.  A run is any list of steps, so a statement about all runs is a
 statement about all interleavings.
 */
module TileSignal {
  import opened Sequences

  /** What the host fixes before the launch. */
  datatype Config = Config(
    cSeg: seq<nat>,      // tiles per segment
    ra: seq<int>,        // logical tile -> packed tile
    arrivals: nat,       // warp groups that finish one tile
    monitor: bool)
  {
    ghost predicate Valid() {
      |cSeg| > 0 && Sum(cSeg) == |ra| && IsPermutation(ra) && arrivals > 0
    }

    // MM layout: segment counters, tile_done, order counter, monitor_order.
    function DoneAt(tile: int): int { |cSeg| + tile }
    function CounterAt(): int { |cSeg| + |ra| }
    function OrderAt(tile: int): int { |cSeg| + |ra| + 1 + tile }
    function MemorySize(): int {
      if monitor then |cSeg| + |ra| + 1 + |ra| else |cSeg| + |ra|
    }

    /** First packed tile of segment s. */
    function Start(s: nat): (r: nat)
      requires s <= |cSeg|
    {
      Sum(cSeg[..s])
    }
  }

  /** Segment s holds the packed tile. */
  predicate InSegment(c: Config, s: nat, tile: int)
    requires s < |c.cSeg|
  {
    c.Start(s) <= tile < c.Start(s + 1)
  }

  /** Index of the segment that holds packed tile `tile`. */
  function SegmentOf(cSeg: seq<nat>, tile: nat): (r: nat)
    requires tile < Sum(cSeg)
    ensures r < |cSeg|
  {
    if tile < cSeg[0] then 0 else 1 + SegmentOf(cSeg[1..], tile - cSeg[0])
  }

  /** SegmentOf is the only segment whose half-open tile range contains the tile. */
  lemma {:induction false} SegmentOfUnique(c: Config, tile: nat, s: nat)
    requires tile < Sum(c.cSeg) && s < |c.cSeg|
    ensures InSegment(c, s, tile) <==> s == SegmentOf(c.cSeg, tile)
    ensures InSegment(c, s, tile) <==> Sum(c.cSeg[..s]) <= tile < Sum(c.cSeg[..s + 1])
    decreases |c.cSeg|
  {
    var head, tail := c.cSeg[0], c.cSeg[1..];
    assert Sum(c.cSeg[..0]) == 0;
    SumSnoc(c.cSeg, 0);
    if s == 0 {
      return;
    }
    assert c.cSeg[..s] == [head] + tail[..s - 1];
    assert c.cSeg[..s + 1] == [head] + tail[..s];
    SumAppend([head], tail[..s - 1]);
    SumAppend([head], tail[..s]);
    assert Sum([head]) == head + Sum([]);
    if tile < head {
    } else {
      SegmentOfUnique(c.(cSeg := tail), tile - head, s - 1);
    }
  }

  /** Where a warp group stands in `store_tail`. */
  datatype Pc =
    | Working              // its part of the tile is not stored yet
    | Passed               // arrived, was not the last
    | Signal               // arrived last; segment counter not bumped yet
    | Count                // segment bumped; order counter not taken yet
    | Store(order: int)    // order taken; monitor_order not written yet
    | Done                 // the last arrival, finished
  {
    predicate Last() { Signal? || Count? || Store? || Done? }
    predicate Signalled() { Count? || Store? || Done? }
    predicate Numbered() { Store? || Done? }
  }

  /** MM, the warp groups by logical tile, and the waits the stream has passed. */
  datatype State = State(mm: seq<int>, wg: seq<seq<Pc>>, waited: nat)

  datatype Step = Warp(tile: nat, group: nat) | Poll

  predicate Shape(c: Config, st: State) {
    && |st.mm| >= c.MemorySize()
    && |st.wg| == |c.ra|
    && (forall l :: 0 <= l < |st.wg| ==> |st.wg[l]| == c.arrivals)
    && st.waited <= |c.cSeg|
  }

  /** One atomic step of `store_tail` for a warp group of packed tile `tile`. */
  function WarpStep(c: Config, mm: seq<int>, pc: Pc, tile: nat): (r: (seq<int>, Pc))
    requires |mm| >= c.MemorySize() && tile < |c.ra| && Sum(c.cSeg) == |c.ra|
    requires pc.Count? || pc.Store? ==> c.monitor
    ensures |r.0| == |mm|
  {
    match pc
    case Working =>
      var old_ := mm[c.DoneAt(tile)];
      (mm[c.DoneAt(tile) := old_ + 1], if old_ == c.arrivals - 1 then Signal else Passed)
    case Signal =>
      var seg := SegmentOf(c.cSeg, tile);
      (mm[seg := mm[seg] + 1], if c.monitor then Count else Done)
    case Count =>
      (mm[c.CounterAt() := mm[c.CounterAt()] + 1], Store(mm[c.CounterAt()]))
    case Store(order) =>
      (mm[c.OrderAt(tile) := order], Done)
    case _ => (mm, pc)
  }

  /** One iteration of `kernel_wait_flag` on segment st.waited: CAS(cSeg, 0). */
  function PollStep(c: Config, st: State): State
    requires Shape(c, st) && st.waited < |c.cSeg|
  {
    if st.mm[st.waited] == c.cSeg[st.waited] then
      st.(mm := st.mm[st.waited := 0], waited := st.waited + 1)
    else
      st
  }

  /** A step that names no warp group, or one with nothing left to do, changes nothing. */
  function Apply(c: Config, st: State, step: Step): (r: State)
    requires c.Valid() && Inv(c, st)
  {
    match step
    case Warp(l, w) =>
      if l < |st.wg| && w < c.arrivals then
        var (mm, pc) := WarpStep(c, st.mm, st.wg[l][w], c.ra[l]);
        State(mm, st.wg[l := st.wg[l][w := pc]], st.waited)
      else st
    case Poll => if st.waited < |c.cSeg| then PollStep(c, st) else st
  }

  // ---------- invariant ----------

  function Arrived(row: seq<Pc>): set<int> {
    set w | 0 <= w < |row| && row[w] != Working
  }

  ghost predicate HasLast(row: seq<Pc>) {
    exists w :: 0 <= w < |row| && row[w].Last()
  }

  ghost predicate HasSignalled(row: seq<Pc>) {
    exists w :: 0 <= w < |row| && row[w].Signalled()
  }

  /** Exactly one warp group of a complete tile saw the last arrival; none before. */
  ghost predicate RowInv(c: Config, row: seq<Pc>, done: int) {
    && done == |Arrived(row)|
    && (done == c.arrivals <==> HasLast(row))
    && (forall w, v :: 0 <= w < v < |row| ==> !(row[w].Last() && row[v].Last()))
    && (forall w :: 0 <= w < |row| && (row[w].Count? || row[w].Store?) ==> c.monitor)
  }

  /** Logical tiles of segment s whose signal has been added to the segment counter. */
  ghost function SignalledIn(c: Config, wg: seq<seq<Pc>>, s: nat): set<int>
    requires s < |c.cSeg| && |wg| == |c.ra|
  {
    set l | 0 <= l < |wg| && InSegment(c, s, c.ra[l]) && HasSignalled(wg[l])
  }

  ghost predicate SegmentInv(c: Config, st: State, s: nat)
    requires Shape(c, st) && s < |c.cSeg|
  {
    var n := |SignalledIn(c, st.wg, s)|;
    if s < st.waited then st.mm[s] == 0 && n == c.cSeg[s] else st.mm[s] == n
  }

  ghost predicate Inv(c: Config, st: State) {
    && Shape(c, st)
    && (forall l :: 0 <= l < |st.wg| ==> 0 <= c.ra[l] < |c.ra|)
    && (forall l :: 0 <= l < |st.wg| ==> RowInv(c, st.wg[l], st.mm[c.DoneAt(c.ra[l])]))
    && (forall s :: 0 <= s < |c.cSeg| ==> SegmentInv(c, st, s))
  }

  lemma ArrivedBound(row: seq<Pc>)
    ensures |Arrived(row)| <= |row|
    ensures |Arrived(row)| == |row| <==> forall w :: 0 <= w < |row| ==> row[w] != Working
  {
    RangeSize(0, |row|);
    SubsetSize(Arrived(row), Range(0, |row|));
    if forall w :: 0 <= w < |row| ==> row[w] != Working {
      assert Arrived(row) == Range(0, |row|);
    } else {
      var w :| 0 <= w < |row| && row[w] == Working;
      assert w in Range(0, |row|) && w !in Arrived(row);
    }
  }

  /** The bodies of a segment's tiles: as many as cSeg says. */
  lemma TilesOfSegment(c: Config, s: nat)
    requires c.Valid() && s < |c.cSeg|
    ensures c.Start(s) <= c.Start(s + 1) <= |c.ra|
    ensures |Preimage(c.ra, c.Start(s), c.Start(s + 1))| == c.cSeg[s]
  {
    SumSnoc(c.cSeg, s);
    SumPrefixAll(c.cSeg, s + 1);
    PreimageSize(c.ra, c.Start(s), c.Start(s + 1));
  }

  lemma SignalledBound(c: Config, wg: seq<seq<Pc>>, s: nat)
    requires c.Valid() && s < |c.cSeg| && |wg| == |c.ra|
    ensures |SignalledIn(c, wg, s)| <= c.cSeg[s]
    ensures |SignalledIn(c, wg, s)| == c.cSeg[s] <==>
            forall l :: 0 <= l < |wg| && InSegment(c, s, c.ra[l]) ==> HasSignalled(wg[l])
  {
    var all := Preimage(c.ra, c.Start(s), c.Start(s + 1));
    TilesOfSegment(c, s);
    SubsetSize(SignalledIn(c, wg, s), all);
    if forall l :: 0 <= l < |wg| && InSegment(c, s, c.ra[l]) ==> HasSignalled(wg[l]) {
      assert SignalledIn(c, wg, s) == all;
    } else {
      var l :| 0 <= l < |wg| && InSegment(c, s, c.ra[l]) && !HasSignalled(wg[l]);
      assert l in all && l !in SignalledIn(c, wg, s);
    }
  }

  /** A row after one of its warp groups arrived. */
  lemma RowArrive(c: Config, row: seq<Pc>, w: nat, done: int)
    requires |row| == c.arrivals > 0 && w < |row| && row[w].Working?
    requires RowInv(c, row, done)
    ensures RowInv(c, row[w := if done == c.arrivals - 1 then Signal else Passed], done + 1)
  {
    var row' := row[w := if done == c.arrivals - 1 then Signal else Passed];
    ArrivedAdd(row, w, row'[w]);
    assert !HasLast(row);
    assert forall v :: 0 <= v < |row| && v != w ==> row'[v] == row[v] && !row[v].Last();
    assert row'[w].Last() <==> done + 1 == c.arrivals;
  }

  lemma ArrivedAdd(row: seq<Pc>, w: nat, pc': Pc)
    requires w < |row| && row[w].Working? && pc' != Working
    ensures |Arrived(row[w := pc'])| == |Arrived(row)| + 1 <= |row|
  {
    ArrivedBound(row);
    assert Arrived(row[w := pc']) == Arrived(row) + {w};
  }

  /** A row after a warp group that had already arrived moved on. */
  lemma RowMove(c: Config, row: seq<Pc>, w: nat, pc': Pc, done: int)
    requires |row| == c.arrivals > 0 && w < |row| && !row[w].Working?
    requires RowInv(c, row, done)
    requires pc'.Count? || pc'.Store? ==> c.monitor
    requires pc' != Working && (pc'.Last() <==> row[w].Last())
    ensures RowInv(c, row[w := pc'], done)
  {
    var row' := row[w := pc'];
    assert Arrived(row') == Arrived(row);
    assert forall v :: 0 <= v < |row| ==> (row'[v].Last() <==> row[v].Last());
  }

  /** Whether a tile counts as signalled changes only at the Signal step of its last warp group. */
  lemma RowSignalled(c: Config, row: seq<Pc>, w: nat, pc': Pc, done: int)
    requires |row| == c.arrivals && w < |row| && RowInv(c, row, done)
    requires pc'.Last() ==> row[w].Last() || row[w].Working?
    requires row[w].Signalled() ==> pc'.Signalled()
    ensures row[w].Signalled() || !pc'.Signalled() ==>
              (HasSignalled(row[w := pc']) <==> HasSignalled(row))
    ensures row[w] == Signal ==> !HasSignalled(row)
    ensures pc'.Signalled() ==> HasSignalled(row[w := pc'])
  {
    var row' := row[w := pc'];
    if HasSignalled(row) {
      var v :| 0 <= v < |row| && row[v].Signalled();
      assert row'[v].Signalled() || v == w;
      if v == w {
        assert row'[w].Signalled();
      }
    }
    if HasSignalled(row') && (row[w].Signalled() || !pc'.Signalled()) {
      var v :| 0 <= v < |row'| && row'[v].Signalled();
      assert row[v].Signalled();
    }
    if pc'.Signalled() {
      assert row'[w].Signalled();
    }
  }

  /** What a warp step leaves alone: every other tile and every other cell of MM. */
  lemma WarpFrame(c: Config, st: State, l: nat, w: nat)
    requires c.Valid() && Inv(c, st) && l < |st.wg| && w < c.arrivals
    ensures var pc := st.wg[l][w]; var tile := c.ra[l];
            var (mm, pc') := WarpStep(c, st.mm, pc, tile);
            && (forall k :: 0 <= k < |st.wg| && k != l ==> mm[c.DoneAt(c.ra[k])] == st.mm[c.DoneAt(c.ra[k])])
            && mm[c.DoneAt(tile)] == st.mm[c.DoneAt(tile)] + (if pc.Working? then 1 else 0)
            && (forall s: int :: 0 <= s < |c.cSeg| ==>
                  mm[s] == st.mm[s] + if pc.Signal? && s == SegmentOf(c.cSeg, tile) then 1 else 0)
  {
    assert forall k :: 0 <= k < |st.wg| && k != l ==> c.ra[k] != c.ra[l];
  }

  lemma WarpInv(c: Config, st: State, l: nat, w: nat)
    requires c.Valid() && Inv(c, st) && l < |st.wg| && w < c.arrivals
    ensures Inv(c, Apply(c, st, Warp(l, w)))
  {
    var row, tile := st.wg[l], c.ra[l];
    var (mm, pc') := WarpStep(c, st.mm, row[w], tile);
    var st' := Apply(c, st, Warp(l, w));
    assert RowInv(c, row, st.mm[c.DoneAt(tile)]);
    WarpFrame(c, st, l, w);
    if row[w].Working? { RowArrive(c, row, w, st.mm[c.DoneAt(tile)]); } else { RowMove(c, row, w, pc', st.mm[c.DoneAt(tile)]); }
    assert forall k :: 0 <= k < |st.wg| && k != l ==> st'.wg[k] == st.wg[k];
    forall s | 0 <= s < |c.cSeg| ensures SegmentInv(c, st', s) {
      assert SegmentInv(c, st, s);
      WarpSegment(c, st, l, w, s);
    }
  }

  /** A segment counter and its set of signalled tiles move together. */
  lemma WarpSegment(c: Config, st: State, l: nat, w: nat, s: nat)
    requires c.Valid() && Inv(c, st) && l < |st.wg| && w < c.arrivals && s < |c.cSeg|
    ensures var tile := c.ra[l];
            var st' := Apply(c, st, Warp(l, w));
            && |st'.wg| == |st.wg|
            && |SignalledIn(c, st'.wg, s)| == |SignalledIn(c, st.wg, s)| +
                 (if st.wg[l][w].Signal? && s == SegmentOf(c.cSeg, tile) then 1 else 0)
            && (st.wg[l][w].Signal? && s == SegmentOf(c.cSeg, tile) ==>
                 |SignalledIn(c, st.wg, s)| < c.cSeg[s])
  {
    var row, tile := st.wg[l], c.ra[l];
    var pc' := WarpStep(c, st.mm, row[w], tile).1;
    assert RowInv(c, row, st.mm[c.DoneAt(tile)]);
    RowSignalled(c, row, w, pc', st.mm[c.DoneAt(tile)]);
    SegmentOfUnique(c, tile, s);
    SignalledUpdate(c, st.wg, l, row[w := pc'], s);
    SignalledBound(c, st.wg, s);
  }

  /** Replacing one tile's row changes the signalled set by at most that tile. */
  lemma SignalledUpdate(c: Config, wg: seq<seq<Pc>>, l: nat, row: seq<Pc>, s: nat)
    requires s < |c.cSeg| && |wg| == |c.ra| && l < |wg|
    ensures (HasSignalled(row) <==> HasSignalled(wg[l])) || !InSegment(c, s, c.ra[l]) ==>
              SignalledIn(c, wg[l := row], s) == SignalledIn(c, wg, s)
    ensures HasSignalled(row) && !HasSignalled(wg[l]) && InSegment(c, s, c.ra[l]) ==>
              && l !in SignalledIn(c, wg, s)
              && |SignalledIn(c, wg[l := row], s)| == |SignalledIn(c, wg, s)| + 1
  {
    var wg' := wg[l := row];
    assert forall k :: 0 <= k < |wg| && k != l ==> wg'[k] == wg[k];
    var a, b := SignalledIn(c, wg, s), SignalledIn(c, wg', s);
    assert forall k :: k != l ==> (k in a <==> k in b);
    assert l in a <==> InSegment(c, s, c.ra[l]) && HasSignalled(wg[l]);
    assert l in b <==> InSegment(c, s, c.ra[l]) && HasSignalled(row);
    if HasSignalled(row) && !HasSignalled(wg[l]) && InSegment(c, s, c.ra[l]) {
      assert b == a + {l};
    } else if (HasSignalled(row) <==> HasSignalled(wg[l])) || !InSegment(c, s, c.ra[l]) {
      assert a == b;
    }
  }

  lemma PollInv(c: Config, st: State)
    requires c.Valid() && Inv(c, st)
    ensures Inv(c, Apply(c, st, Poll))
  {
    var st' := Apply(c, st, Poll);
    if st' != st {
      assert forall l :: 0 <= l < |st.wg| ==> st'.mm[c.DoneAt(c.ra[l])] == st.mm[c.DoneAt(c.ra[l])];
      forall s | 0 <= s < |c.cSeg| ensures SegmentInv(c, st', s) {
        assert SegmentInv(c, st, s);
      }
    }
  }

  /** Every step of every agent keeps the invariant. */
  lemma ApplyInv(c: Config, st: State, step: Step)
    requires c.Valid() && Inv(c, st)
    ensures Inv(c, Apply(c, st, step))
  {
    match step
    case Warp(l, w) => if l < |st.wg| && w < c.arrivals { WarpInv(c, st, l, w); }
    case Poll => PollInv(c, st);
  }
}
