/** Storing tiles at their packed coordinates, and the `unpack` that restores the matrix. */
module PackedOutput {
  import opened Arith
  import opened Sequences
  import opened PackedLayout

  /** A logical matrix of rows x cols tiles and the packed layout it is stored in. */
  datatype Tiling = Tiling(y: Layout, rows: nat, cols: nat, ra: seq<int>)
  {
    ghost predicate Valid() {
      y.Valid() && |ra| == rows * cols && IsPermutation(ra)
    }

    function M(): nat { rows * y.tm }
    function N(): nat { cols * y.tn }
    function PackedM(): nat requires y.cols > 0 { y.PackedRows(|ra|) }
    function PackedN(): nat { y.RowElems() }
  }

  ghost predicate Fits<T>(g: Tiling, a: array2<T>, d: array2<T>)
    requires g.Valid()
  {
    a.Length0 == g.M() && a.Length1 == g.N() && d.Length0 == g.PackedM() && d.Length1 == g.PackedN()
  }

  lemma TileIndex(g: Tiling, r: nat, c: nat)
    requires g.Valid() && r < g.rows && c < g.cols
    ensures 0 <= r * g.cols + c < |g.ra| && 0 <= g.ra[r * g.cols + c] < |g.ra|
  {
    PairBound(r, c, g.rows, g.cols);
  }

  /** Packed tile of logical tile (r, c). */
  function Packed(g: Tiling, r: nat, c: nat): (p: nat)
    requires g.Valid() && r < g.rows && c < g.cols
    ensures p < |g.ra|
  {
    TileIndex(g, r, c);
    g.ra[r * g.cols + c]
  }

  lemma PackedInjective(g: Tiling, r: nat, c: nat, r': nat, c': nat)
    requires g.Valid() && r < g.rows && c < g.cols && r' < g.rows && c' < g.cols
    requires Packed(g, r, c) == Packed(g, r', c')
    ensures r == r' && c == c'
  {
    TileIndex(g, r, c);
    TileIndex(g, r', c');
    PairUnique(r, c, r', c', g.cols);
  }

  /** Top-left corners of a tile, in the logical and in the packed matrix. */
  function Top(g: Tiling, r: nat): nat { r * g.y.tm }
  function Left(g: Tiling, c: nat): nat { c * g.y.tn }
  function PackedTop(y: Layout, p: nat): nat requires y.cols > 0 { p / y.cols * y.tm }
  function PackedLeft(y: Layout, p: nat): nat requires y.cols > 0 { p % y.cols * y.tn }

  lemma LogicalBlockFits(g: Tiling, r: nat, c: nat)
    requires g.Valid() && r < g.rows && c < g.cols
    ensures Top(g, r) + g.y.tm <= g.M() && Left(g, c) + g.y.tn <= g.N()
  {
    MulLe(r + 1, g.rows, g.y.tm);
    MulLe(c + 1, g.cols, g.y.tn);
  }

  lemma PackedBlockFits(g: Tiling, p: nat)
    requires g.Valid() && p < |g.ra|
    ensures PackedTop(g.y, p) + g.y.tm <= g.PackedM() && PackedLeft(g.y, p) + g.y.tn <= g.PackedN()
  {
    CellInShape(g.y, |g.ra|, p, g.y.tm - 1, g.y.tn - 1);
  }

  /** Two corners of the same grid: equal, or a whole block apart. */
  predicate Apart(a: int, b: int, h: int) { a + h <= b || b + h <= a }

  lemma GridApart(a: nat, b: nat, h: nat)
    ensures a != b ==> Apart(a * h, b * h, h)
  {
    if a < b {
      MulLe(a + 1, b, h);
    } else if b < a {
      MulLe(b + 1, a, h);
    }
  }

  lemma LogicalApart(g: Tiling, r: nat, c: nat, r': nat, c': nat)
    requires (r, c) != (r', c')
    ensures Apart(Top(g, r), Top(g, r'), g.y.tm) || Apart(Left(g, c), Left(g, c'), g.y.tn)
  {
    GridApart(r, r', g.y.tm);
    GridApart(c, c', g.y.tn);
  }

  /** Distinct tiles occupy disjoint blocks of the packed matrix. */
  lemma PackedApart(g: Tiling, r: nat, c: nat, r': nat, c': nat)
    requires g.Valid() && r < g.rows && c < g.cols && r' < g.rows && c' < g.cols
    requires (r, c) != (r', c')
    ensures var p, q := Packed(g, r, c), Packed(g, r', c');
            || Apart(PackedTop(g.y, p), PackedTop(g.y, q), g.y.tm)
            || Apart(PackedLeft(g.y, p), PackedLeft(g.y, q), g.y.tn)
  {
    var p, q := Packed(g, r, c), Packed(g, r', c');
    if p == q {
      PackedInjective(g, r, c, r', c');
    }
    CornersApart(g.y, p, q);
  }

  lemma CornersApart(y: Layout, p: nat, q: nat)
    requires y.Valid() && p != q
    ensures Apart(PackedTop(y, p), PackedTop(y, q), y.tm) || Apart(PackedLeft(y, p), PackedLeft(y, q), y.tn)
  {
    DigitsDiffer(p, q, y.cols);
    GridApart(p / y.cols, q / y.cols, y.tm);
    GridApart(p % y.cols, q % y.cols, y.tn);
  }

  lemma DigitsDiffer(q: nat, p: nat, w: nat)
    requires w > 0 && q != p
    ensures q / w != p / w || q % w != p % w
  {
  }

  /** A block of src equals a block of dst. */
  ghost predicate SameBlock<T>(a: array2<T>, ar: nat, ac: nat, d: array2<T>, dr: nat, dc: nat, y: Layout)
    reads a, d
    requires ar + y.tm <= a.Length0 && ac + y.tn <= a.Length1 && dr + y.tm <= d.Length0 && dc + y.tn <= d.Length1
  {
    forall i: nat, j: nat :: InTile(y, i, j) ==> a[ar + i, ac + j] == d[dr + i, dc + j]
  }

  /** Logical tile (r, c) of `a` is what `d` holds at that tile's packed place. */
  ghost predicate Stored<T>(g: Tiling, a: array2<T>, d: array2<T>, r: nat, c: nat)
    reads a, d
    requires g.Valid() && Fits(g, a, d) && r < g.rows && c < g.cols
  {
    LogicalBlockFits(g, r, c);
    PackedBlockFits(g, Packed(g, r, c));
    SameBlock(a, Top(g, r), Left(g, c), d, PackedTop(g.y, Packed(g, r, c)), PackedLeft(g.y, Packed(g, r, c)), g.y)
  }

  /** Element (i, j) of logical tile (tr, tc) in the matrix `a` is the element of `d` at the packed place of
      tile ra[tr * cols + tc]: w tiles to a packed row, row after row. */
  ghost predicate SameElement<T>(g: Tiling, a: array2<T>, d: array2<T>, tr: nat, tc: nat, i: nat, j: nat)
    reads a, d
    requires g.y.cols > 0
  {
    var logical, w := tr * g.cols + tc, g.y.cols;
    && 0 <= logical < |g.ra| && g.ra[logical] >= 0
    && var q := g.ra[logical];
       && 0 <= tr * g.y.tm + i < a.Length0 && 0 <= tc * g.y.tn + j < a.Length1
       && 0 <= q / w * g.y.tm + i < d.Length0 && 0 <= q % w * g.y.tn + j < d.Length1
       && a[tr * g.y.tm + i, tc * g.y.tn + j] == d[q / w * g.y.tm + i, q % w * g.y.tn + j]
  }

  ghost predicate SameTile<T>(g: Tiling, a: array2<T>, d: array2<T>, tr: nat, tc: nat)
    reads a, d
    requires g.y.cols > 0
  {
    forall i: nat, j: nat :: i < g.y.tm && j < g.y.tn ==> SameElement(g, a, d, tr, tc, i, j)
  }

  lemma StoredMeans<T>(g: Tiling, a: array2<T>, d: array2<T>, r: nat, c: nat)
    requires g.Valid() && Fits(g, a, d) && r < g.rows && c < g.cols
    ensures Stored(g, a, d, r, c) <==> SameTile(g, a, d, r, c)
  {
    LogicalBlockFits(g, r, c);
    PackedBlockFits(g, Packed(g, r, c));
    forall i: nat, j: nat | InTile(g.y, i, j)
      ensures SameElement(g, a, d, r, c, i, j) <==> AtBlocks(g, a, d, r, c, i, j)
    {
      ElementMeans(g, a, d, r, c, i, j);
    }
    if SameTile(g, a, d, r, c) {
      forall i: nat, j: nat | InTile(g.y, i, j) ensures AtBlocks(g, a, d, r, c, i, j) {
        assert SameElement(g, a, d, r, c, i, j);
      }
    }
    if Stored(g, a, d, r, c) {
      forall i: nat, j: nat | InTile(g.y, i, j) ensures SameElement(g, a, d, r, c, i, j) {
        assert AtBlocks(g, a, d, r, c, i, j);
      }
    }
  }

  ghost predicate AtBlocks<T>(g: Tiling, a: array2<T>, d: array2<T>, r: nat, c: nat, i: nat, j: nat)
    reads a, d
    requires g.Valid() && Fits(g, a, d) && r < g.rows && c < g.cols && InTile(g.y, i, j)
  {
    LogicalBlockFits(g, r, c);
    PackedBlockFits(g, Packed(g, r, c));
    a[Top(g, r) + i, Left(g, c) + j] == d[PackedTop(g.y, Packed(g, r, c)) + i, PackedLeft(g.y, Packed(g, r, c)) + j]
  }

  lemma ElementMeans<T>(g: Tiling, a: array2<T>, d: array2<T>, r: nat, c: nat, i: nat, j: nat)
    requires g.Valid() && Fits(g, a, d) && r < g.rows && c < g.cols && InTile(g.y, i, j)
    ensures SameElement(g, a, d, r, c, i, j) <==> AtBlocks(g, a, d, r, c, i, j)
  {
    TileIndex(g, r, c);
    LogicalBlockFits(g, r, c);
    PackedBlockFits(g, Packed(g, r, c));
  }

  /** The rectangular copy behind both directions. */
  method CopyBlock<T>(src: array2<T>, sr: nat, sc: nat, dst: array2<T>, dr: nat, dc: nat, y: Layout)
    requires src != dst
    requires sr + y.tm <= src.Length0 && sc + y.tn <= src.Length1 && dr + y.tm <= dst.Length0 && dc + y.tn <= dst.Length1
    modifies dst
    ensures SameBlock(src, sr, sc, dst, dr, dc, y)
    ensures forall x, z :: 0 <= x < dst.Length0 && 0 <= z < dst.Length1 ==>
              (dr <= x < dr + y.tm && dc <= z < dc + y.tn) || dst[x, z] == old(dst[x, z])
  {
    forall x, z | dr <= x < dr + y.tm && dc <= z < dc + y.tn {
      dst[x, z] := src[sr + (x - dr), sc + (z - dc)];
    }
  }

  /** One tile of the epilogue: stores logical tile (r, c) and keeps every other stored tile. */
  method StoreTile<T>(g: Tiling, a: array2<T>, d: array2<T>, r: nat, c: nat)
    requires g.Valid() && Fits(g, a, d) && a != d && r < g.rows && c < g.cols
    modifies d
    ensures Stored(g, a, d, r, c) && SameTile(g, a, d, r, c)
    ensures forall r': nat, c': nat :: r' < g.rows && c' < g.cols && (r', c') != (r, c) ==>
              (Stored(g, a, d, r', c') <==> old(Stored(g, a, d, r', c')))
  {
    LogicalBlockFits(g, r, c);
    var p := Packed(g, r, c);
    PackedBlockFits(g, p);
    CopyBlock(a, Top(g, r), Left(g, c), d, PackedTop(g.y, p), PackedLeft(g.y, p), g.y);
    StoredMeans(g, a, d, r, c);
    forall r': nat, c': nat | r' < g.rows && c' < g.cols && (r', c') != (r, c)
      ensures Stored(g, a, d, r', c') <==> old(Stored(g, a, d, r', c'))
    {
      PackedApart(g, r, c, r', c');
      PackedBlockFits(g, Packed(g, r', c'));
      LogicalBlockFits(g, r', c');
    }
  }

  /** The `copy_` of one tile in `unpack`. */
  method UnpackTile<T>(g: Tiling, out: array2<T>, d: array2<T>, r: nat, c: nat)
    requires g.Valid() && Fits(g, out, d) && out != d && r < g.rows && c < g.cols
    modifies out
    ensures Stored(g, out, d, r, c) && SameTile(g, out, d, r, c)
    ensures forall r': nat, c': nat :: r' < g.rows && c' < g.cols && (r', c') != (r, c) ==>
              (Stored(g, out, d, r', c') <==> old(Stored(g, out, d, r', c')))
  {
    LogicalBlockFits(g, r, c);
    var packed := Packed(g, r, c);
    PackedBlockFits(g, packed);
    CopyBlock(d, PackedTop(g.y, packed), PackedLeft(g.y, packed), out, Top(g, r), Left(g, c), g.y);
    StoredMeans(g, out, d, r, c);
    forall r': nat, c': nat | r' < g.rows && c' < g.cols && (r', c') != (r, c)
      ensures Stored(g, out, d, r', c') <==> old(Stored(g, out, d, r', c'))
    {
      LogicalApart(g, r, c, r', c');
      PackedBlockFits(g, Packed(g, r', c'));
      LogicalBlockFits(g, r', c');
    }
  }

  /** `unpack`: the nested loops that copy every packed tile back to its logical place. */
  method Unpack<T(0)>(g: Tiling, d: array2<T>) returns (out: array2<T>)
    requires g.Valid() && d.Length0 == g.PackedM() && d.Length1 == g.PackedN()
    ensures fresh(out) && Fits(g, out, d)
    ensures forall r: nat, c: nat :: r < g.rows && c < g.cols ==> Stored(g, out, d, r, c) && SameTile(g, out, d, r, c)
  {
    out := new T[g.M(), g.N()];
    var tr := 0;
    while tr < g.rows
      invariant tr <= g.rows
      invariant forall r: nat, c: nat :: r < tr && c < g.cols ==> Stored(g, out, d, r, c)
    {
      var tc := 0;
      while tc < g.cols
        invariant tc <= g.cols
        invariant forall r: nat, c: nat :: r < tr && c < g.cols ==> Stored(g, out, d, r, c)
        invariant forall c: nat :: c < tc ==> Stored(g, out, d, tr, c)
      {
        UnpackTile(g, out, d, tr, tc);
        tc := tc + 1;
      }
      tr := tr + 1;
    }
    forall r: nat, c: nat | r < g.rows && c < g.cols ensures SameTile(g, out, d, r, c) {
      StoredMeans(g, out, d, r, c);
    }
  }

  /** The round trip: store the tiles in any order, each at least once, then unpack. */
  method PackThenUnpack<T(0)>(g: Tiling, a: array2<T>, d: array2<T>, order: seq<(nat, nat)>)
    returns (out: array2<T>)
    requires g.Valid() && Fits(g, a, d) && a != d
    requires forall k :: 0 <= k < |order| ==> order[k].0 < g.rows && order[k].1 < g.cols
    requires forall r: nat, c: nat :: r < g.rows && c < g.cols ==> (r, c) in order
    modifies d
    ensures out.Length0 == a.Length0 && out.Length1 == a.Length1
    ensures forall x, z :: 0 <= x < a.Length0 && 0 <= z < a.Length1 ==> out[x, z] == a[x, z]
  {
    var k := 0;
    while k < |order|
      invariant k <= |order|
      invariant forall n :: 0 <= n < k ==> Stored(g, a, d, order[n].0, order[n].1)
    {
      var (r, c) := order[k];
      StoreTile(g, a, d, r, c);
      forall n | 0 <= n < k ensures Stored(g, a, d, order[n].0, order[n].1) {
        assert order[n].0 != r || order[n].1 != c ==> (order[n].0, order[n].1) != (r, c);
      }
      k := k + 1;
    }
    out := Unpack(g, d);
    forall x, z | 0 <= x < a.Length0 && 0 <= z < a.Length1 ensures out[x, z] == a[x, z] {
      var r, c, i, j := CellOf(g, x, z);
      assert (r, c) in order;
      assert Stored(g, a, d, r, c) && Stored(g, out, d, r, c);
      assert a[Top(g, r) + i, Left(g, c) + j] == out[Top(g, r) + i, Left(g, c) + j];
    }
  }

  lemma CellOf(g: Tiling, x: nat, z: nat) returns (r: nat, c: nat, i: nat, j: nat)
    requires g.Valid() && x < g.M() && z < g.N()
    ensures r < g.rows && c < g.cols && InTile(g.y, i, j)
    ensures x == Top(g, r) + i && z == Left(g, c) + j
  {
    r, i := x / g.y.tm, x % g.y.tm;
    c, j := z / g.y.tn, z % g.y.tn;
    DivLess(x, g.rows, g.y.tm);
    DivLess(z, g.cols, g.y.tn);
  }
}
