/**
 Window, chunk and CTA arithmetic of the two-GPU transfer kernels (src/comm/utils/utils.h): how the
 windows of a buffer are split between the two ranks, then between CTAs, and which bytes they are.
 Integers are unbounded here; the callers keep the source's int and size_t values in range.
 */
module WorkRanges {
  import opened Arith
  import opened Shares

  datatype Window = Window(index: int, startChunk: int, chunkCount: int, ownerRank: int)

  datatype WindowRange = WindowRange(begin: int, end: int)

  predicate InRange(w: int, range: WindowRange) {
    range.begin <= w < range.end
  }

  const EMPTY_RANGE := WindowRange(0, 0)

  function CeilDivInt(num: int, den: int): int {
    if num <= 0 || den <= 0 then 0 else (num + den - 1) / den
  }

  function WindowCountForChunks(numChunks: int, chunksPerWindow: int): int {
    CeilDivInt(numChunks, chunksPerWindow)
  }

  function WindowCountForBytes(totalBytes: nat, chunkBytes: nat, chunksPerWindow: int): int {
    if totalBytes == 0 || chunkBytes == 0 || chunksPerWindow <= 0 then 0
    else WindowCountForChunks(CeilDivInt(totalBytes, chunkBytes), chunksPerWindow)
  }

  function Rank0WindowCount(numWindows: nat): nat {
    (numWindows + 1) / 2
  }

  function WindowOwnerRank(windowIdx: int, numWindows: int): int {
    if windowIdx < 0 || windowIdx >= numWindows then -1
    else if windowIdx < Rank0WindowCount(numWindows) then 0 else 1
  }

  function RankWindowRange(numWindows: int, rank: int): WindowRange {
    if numWindows <= 0 || (rank != 0 && rank != 1) then EMPTY_RANGE
    else
      var split := Rank0WindowCount(numWindows);
      if rank == 0 then WindowRange(0, split) else WindowRange(split, numWindows)
  }

  function WindowRangeCount(range: WindowRange): nat {
    if range.begin < range.end then range.end - range.begin else 0
  }

  function RankWindowCount(numWindows: int, rank: int): nat {
    WindowRangeCount(RankWindowRange(numWindows, rank))
  }

  /** One CTA per window, within the cap. */
  function CtaCountForWindows(windowCount: int, maxCtas: int): (n: nat)
    ensures windowCount > 0 && maxCtas > 0 ==> 1 <= n <= windowCount && n <= maxCtas && (n == windowCount || n == maxCtas)
    ensures windowCount <= 0 || maxCtas <= 0 ==> n == 0
  {
    if windowCount <= 0 || maxCtas <= 0 then 0 else Min(windowCount, maxCtas)
  }

  function CtaWindowRange(ctaIdx: int, ctaCount: int, fullRange: WindowRange): WindowRange {
    var total := WindowRangeCount(fullRange);
    if total <= 0 || ctaCount <= 0 || ctaIdx < 0 || ctaIdx >= ctaCount then EMPTY_RANGE
    else
      var base, rem := total / ctaCount, total % ctaCount;
      var localBegin := ctaIdx * base + if ctaIdx < rem then ctaIdx else rem;
      var localCount := base + if ctaIdx < rem then 1 else 0;
      WindowRange(fullRange.begin + localBegin, fullRange.begin + localBegin + localCount)
  }

  function WindowChunkStart(windowIdx: int, chunksPerWindow: int): int {
    if windowIdx < 0 || chunksPerWindow <= 0 then 0 else windowIdx * chunksPerWindow
  }

  function WindowChunkCount(windowIdx: int, numChunks: int, chunksPerWindow: int): int {
    if windowIdx < 0 || numChunks <= 0 || chunksPerWindow <= 0 then 0
    else
      var start := WindowChunkStart(windowIdx, chunksPerWindow);
      if start >= numChunks then 0 else Min(chunksPerWindow, numChunks - start)
  }

  function MakeWindow(windowIdx: int, numChunks: int, chunksPerWindow: int): Window {
    Window(windowIdx, WindowChunkStart(windowIdx, chunksPerWindow),
           WindowChunkCount(windowIdx, numChunks, chunksPerWindow),
           WindowOwnerRank(windowIdx, WindowCountForChunks(numChunks, chunksPerWindow)))
  }

  function WindowBeginByte(window: Window, chunkBytes: nat): int {
    window.startChunk * chunkBytes
  }

  function WindowEndByte(window: Window, totalBytes: nat, chunkBytes: nat): int {
    Min((window.startChunk + window.chunkCount) * chunkBytes, totalBytes)
  }

  // ---------- windows to ranks ----------

  /** The owner lookup and the rank ranges agree on every window, and on every rank number. */
  lemma OwnerMatchesRange(numWindows: int, rank: int, w: int)
    ensures InRange(w, RankWindowRange(numWindows, rank)) <==>
            0 <= w < numWindows && WindowOwnerRank(w, numWindows) == rank
  {
  }

  /** Other ranks, other CTAs and negative windows get nothing, at position 0. */
  lemma NothingOutside(numWindows: int, rank: int, cta: int, ctaCount: int, fullRange: WindowRange, w: int, numChunks: int,
                       chunksPerWindow: int)
    ensures numWindows <= 0 || rank < 0 || rank > 1 ==> RankWindowRange(numWindows, rank) == WindowRange(0, 0)
    ensures fullRange.begin >= fullRange.end || cta < 0 || cta >= ctaCount ==>
              CtaWindowRange(cta, ctaCount, fullRange) == WindowRange(0, 0)
    ensures w < 0 || chunksPerWindow <= 0 ==> MakeWindow(w, numChunks, chunksPerWindow) == Window(w, 0, 0, -1)
  {
  }

  /** Rank 0 owns the first half, with the odd window in the middle. */
  lemma OwnerIs(numWindows: int, w: int)
    ensures WindowOwnerRank(w, numWindows) == if w < 0 || w >= numWindows then -1 else if 2 * w < numWindows then 0 else 1
  {
  }

  /** Rank 0 gets the odd window. */
  lemma RanksBalanced(numWindows: nat)
    ensures RankWindowCount(numWindows, 0) + RankWindowCount(numWindows, 1) == numWindows
    ensures RankWindowCount(numWindows, 1) <= RankWindowCount(numWindows, 0) <= RankWindowCount(numWindows, 1) + 1
  {
  }

  // ---------- windows to CTAs ----------

  /** A CTA range is one share of the full range. */
  lemma CtaIsShare(ctaIdx: int, ctaCount: int, fullRange: WindowRange, w: int)
    ensures InRange(w, CtaWindowRange(ctaIdx, ctaCount, fullRange)) <==>
            && InRange(w, fullRange) && 0 <= ctaIdx < ctaCount
            && InShare(WindowRangeCount(fullRange), ctaCount, ctaIdx, w - fullRange.begin)
  {
    var total := WindowRangeCount(fullRange);
    if total > 0 && 0 <= ctaIdx < ctaCount {
      ShareFits(total, ctaCount, ctaIdx);
    }
  }

  /** With at least one CTA, every window of a range belongs to exactly one CTA. */
  lemma CtaOf(ctaCount: nat, fullRange: WindowRange, w: int) returns (cta: nat)
    requires ctaCount > 0 && InRange(w, fullRange)
    ensures cta < ctaCount && InRange(w, CtaWindowRange(cta, ctaCount, fullRange))
    ensures forall c :: InRange(w, CtaWindowRange(c, ctaCount, fullRange)) ==> c == cta
  {
    cta := ShareOf(WindowRangeCount(fullRange), ctaCount, w - fullRange.begin);
    CtaIsShare(cta, ctaCount, fullRange, w);
    forall c | InRange(w, CtaWindowRange(c, ctaCount, fullRange)) ensures c == cta {
      CtaIsShare(c, ctaCount, fullRange, w);
    }
  }

  /** The CTAs that `cta_count_for_windows` launches all get work, within one window of each other. */
  lemma CtasBalanced(maxCtas: int, fullRange: WindowRange, a: int, b: int)
    requires 0 <= a < CtaCountForWindows(WindowRangeCount(fullRange), maxCtas)
    requires 0 <= b < CtaCountForWindows(WindowRangeCount(fullRange), maxCtas)
    ensures var n := CtaCountForWindows(WindowRangeCount(fullRange), maxCtas);
            && n <= maxCtas && (n == WindowRangeCount(fullRange) || n == maxCtas)
            && 1 <= WindowRangeCount(CtaWindowRange(a, n, fullRange))
            && WindowRangeCount(CtaWindowRange(a, n, fullRange)) <= WindowRangeCount(CtaWindowRange(b, n, fullRange)) + 1
  {
    var total := WindowRangeCount(fullRange);
    var n := CtaCountForWindows(total, maxCtas);
    DivBounds(total, n);
  }

  ghost predicate Runs(numWindows: int, maxCtas: int, rank: int, cta: int, w: int) {
    var range := RankWindowRange(numWindows, rank);
    InRange(w, CtaWindowRange(cta, CtaCountForWindows(WindowRangeCount(range), maxCtas), range))
  }

  /** Exact cover: every window is run by exactly one CTA of exactly one rank, and nothing else is run. */
  lemma WindowRunsOnce(numWindows: int, maxCtas: int, w: int) returns (rank: int, cta: nat)
    requires maxCtas > 0 && 0 <= w < numWindows
    ensures rank == WindowOwnerRank(w, numWindows) && Runs(numWindows, maxCtas, rank, cta, w)
    ensures forall r, c :: Runs(numWindows, maxCtas, r, c, w) ==> r == rank && c == cta
  {
    rank := WindowOwnerRank(w, numWindows);
    var range := RankWindowRange(numWindows, rank);
    OwnerMatchesRange(numWindows, rank, w);
    cta := CtaOf(CtaCountForWindows(WindowRangeCount(range), maxCtas), range, w);
    forall r, c | Runs(numWindows, maxCtas, r, c, w) ensures r == rank && c == cta {
      RunsInside(numWindows, maxCtas, r, c, w);
    }
  }

  lemma RunsInside(numWindows: int, maxCtas: int, r: int, c: int, w: int)
    requires Runs(numWindows, maxCtas, r, c, w)
    ensures 0 <= w < numWindows && r == WindowOwnerRank(w, numWindows)
    ensures 0 <= c < maxCtas
  {
    var range := RankWindowRange(numWindows, r);
    CtaIsShare(c, CtaCountForWindows(WindowRangeCount(range), maxCtas), range, w);
    OwnerMatchesRange(numWindows, r, w);
  }

  /** The CTAs take the windows in order: the ranges follow each other, the larger ones first. */
  lemma CtasInOrder(ctaCount: nat, fullRange: WindowRange, c: nat)
    requires c < ctaCount <= WindowRangeCount(fullRange)
    ensures var range := CtaWindowRange(c, ctaCount, fullRange);
            && range.begin == (if c == 0 then fullRange.begin else CtaWindowRange(c - 1, ctaCount, fullRange).end)
            && (c == ctaCount - 1 ==> range.end == fullRange.end)
            && (c > 0 ==> WindowRangeCount(range) <= WindowRangeCount(CtaWindowRange(c - 1, ctaCount, fullRange)))
  {
    var total := WindowRangeCount(fullRange);
    DivBounds(total, ctaCount);
    NextBegin(c, total / ctaCount);
    LastEnd(ctaCount, total / ctaCount, total % ctaCount, total);
  }

  lemma NextBegin(c: nat, base: nat)
    ensures c > 0 ==> c * base == (c - 1) * base + base
  {
  }

  lemma LastEnd(n: nat, base: nat, rem: nat, total: nat)
    requires n > 0 && total == base * n + rem && rem < n
    ensures (n - 1) * base + rem + base == total
  {
  }

  // ---------- windows to bytes ----------

  /** The chunks of a window are those whose index divides to its own, and its owner is that of the window. */
  lemma WindowIs(w: nat, numChunks: int, chunksPerWindow: nat)
    requires chunksPerWindow > 0
    ensures var window := MakeWindow(w, numChunks, chunksPerWindow);
            && window.index == w
            && (var n := WindowCountForChunks(numChunks, chunksPerWindow);
                window.ownerRank == if w >= n then -1 else if 2 * w < n then 0 else 1)
            && forall c: nat :: window.startChunk <= c < window.startChunk + window.chunkCount <==>
                 c < numChunks && c / chunksPerWindow == w
  {
    var window := MakeWindow(w, numChunks, chunksPerWindow);
    MulNonneg(w, chunksPerWindow);
    forall c: nat
      ensures window.startChunk <= c < window.startChunk + window.chunkCount <==>
              c < numChunks && c / chunksPerWindow == w
    {
      QuotientIs(c, w, chunksPerWindow);
    }
  }

  /** The least number of windows that hold so many chunks. */
  lemma WindowCountIs(numChunks: nat, chunksPerWindow: nat, n: int)
    requires chunksPerWindow > 0
    ensures numChunks <= n * chunksPerWindow <==> WindowCountForChunks(numChunks, chunksPerWindow) <= n
  {
    CeilDivLeast(numChunks, chunksPerWindow, n);
  }

  ghost predicate HoldsByte(w: int, totalBytes: nat, chunkBytes: nat, chunksPerWindow: int, x: int) {
    var window := MakeWindow(w, CeilDivInt(totalBytes, chunkBytes), chunksPerWindow);
    WindowBeginByte(window, chunkBytes) <= x < WindowEndByte(window, totalBytes, chunkBytes)
  }

  /** The bytes of window w are those whose offset divided by the window size is w. */
  lemma WindowBytes(w: nat, totalBytes: nat, chunkBytes: nat, chunksPerWindow: nat, x: nat)
    requires chunkBytes > 0 && chunksPerWindow > 0 && w < WindowCountForBytes(totalBytes, chunkBytes, chunksPerWindow)
    ensures chunksPerWindow * chunkBytes > 0
    ensures HoldsByte(w, totalBytes, chunkBytes, chunksPerWindow, x) <==>
            x < totalBytes && x / (chunksPerWindow * chunkBytes) == w
  {
    var chunks := CeilDiv(totalBytes, chunkBytes);
    MulPos(chunksPerWindow, chunkBytes);
    CeilDivLeast(chunks, chunksPerWindow, w);
    CeilDivLeast(totalBytes, chunkBytes, chunks);
    MulAssoc(w, chunkBytes, chunksPerWindow);
    assert w * chunksPerWindow * chunkBytes == w * (chunksPerWindow * chunkBytes) by {
      MulAssoc(w, chunkBytes, chunksPerWindow);
    }
    var size := chunksPerWindow * chunkBytes;
    var start := w * chunksPerWindow;
    assert start < chunks;
    EndByte(start, chunksPerWindow, chunks, chunkBytes, totalBytes);
    QuotientIs(x, w, size);
  }

  /** The last window is cut at the end of the buffer, whether the cut is by chunks or by bytes. */
  lemma EndByte(start: nat, perWindow: nat, chunks: nat, chunkBytes: nat, total: nat)
    requires start < chunks && chunks * chunkBytes >= total
    ensures Min((start + Min(perWindow, chunks - start)) * chunkBytes, total)
         == Min(start * chunkBytes + perWindow * chunkBytes, total)
  {
    if chunks - start < perWindow {
      MulLe(chunks, start + perWindow, chunkBytes);
    }
  }

  lemma QuotientIs(x: nat, w: nat, size: nat)
    requires size > 0
    ensures x / size == w <==> w * size <= x < w * size + size
  {
    DivBounds(x, size);
    if w * size <= x < w * size + size {
      DivModUnique(x, w, x - w * size, size);
    }
  }

  /** The window that holds a byte is in range. */
  lemma ByteHasWindow(totalBytes: nat, chunkBytes: nat, chunksPerWindow: nat, x: nat)
    requires chunkBytes > 0 && chunksPerWindow > 0 && x < totalBytes
    ensures chunksPerWindow * chunkBytes > 0
    ensures 0 <= x / (chunksPerWindow * chunkBytes) < WindowCountForBytes(totalBytes, chunkBytes, chunksPerWindow)
  {
    MulPos(chunksPerWindow, chunkBytes);
    CeilDivNested(totalBytes, chunkBytes, chunksPerWindow);
    var size := chunksPerWindow * chunkBytes;
    CeilDivLeast(totalBytes, size, CeilDiv(totalBytes, size));
    DivLess(x, CeilDiv(totalBytes, size), size);
  }

  /** Exact cover of the buffer: every byte is moved by exactly one window of one CTA of one rank. */
  lemma ByteRunsOnce(totalBytes: nat, chunkBytes: nat, chunksPerWindow: nat, maxCtas: int, x: nat)
    returns (w: nat, rank: int, cta: nat)
    requires chunkBytes > 0 && chunksPerWindow > 0 && maxCtas > 0 && x < totalBytes
    ensures var n := WindowCountForBytes(totalBytes, chunkBytes, chunksPerWindow);
            && Runs(n, maxCtas, rank, cta, w) && HoldsByte(w, totalBytes, chunkBytes, chunksPerWindow, x)
            && forall v, r, c :: Runs(n, maxCtas, r, c, v) && HoldsByte(v, totalBytes, chunkBytes, chunksPerWindow, x)
                 ==> v == w && r == rank && c == cta
  {
    var n := WindowCountForBytes(totalBytes, chunkBytes, chunksPerWindow);
    ByteHasWindow(totalBytes, chunkBytes, chunksPerWindow, x);
    w := x / (chunksPerWindow * chunkBytes);
    WindowBytes(w, totalBytes, chunkBytes, chunksPerWindow, x);
    rank, cta := WindowRunsOnce(n, maxCtas, w);
    forall v, r, c | Runs(n, maxCtas, r, c, v) && HoldsByte(v, totalBytes, chunkBytes, chunksPerWindow, x)
      ensures v == w && r == rank && c == cta
    {
      RunsInside(n, maxCtas, r, c, v);
      WindowBytes(v, totalBytes, chunkBytes, chunksPerWindow, x);
    }
  }
}
