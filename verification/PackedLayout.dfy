/** Where the reordered epilogue stores a tile, as element addresses of the packed output. */
module PackedLayout {
  import opened Arith

  /** A packed output: tiles of tm by tn elements, `cols` tiles per packed row. */
  datatype Layout = Layout(tm: nat, tn: nat, cols: nat)
  {
    ghost predicate Valid() { tm > 0 && tn > 0 && cols > 0 }

    function TileElems(): nat { tm * tn }

    function RowElems(): nat { cols * tn }

    function PackedRows(tiles: nat): nat
      requires cols > 0
    {
      CeilDiv(tiles, cols) * tm
    }

    /** Matrix row and column of element (i, j) of packed tile p. */
    function Row(p: nat, i: nat): nat
      requires cols > 0
    {
      p / cols * tm + i
    }

    function Col(p: nat, j: nat): nat
      requires cols > 0
    {
      p % cols * tn + j
    }

    function Address(p: nat, i: nat, j: nat): nat
      requires cols > 0
    {
      Row(p, i) * RowElems() + Col(p, j)
    }
  }

  ghost predicate InTile(y: Layout, i: nat, j: nat) {
    i < y.tm && j < y.tn
  }

  /** Distinct tiles write disjoint cells, and different elements of a tile different cells. */
  lemma CellsDisjoint(y: Layout, p: nat, i: nat, j: nat, q: nat, k: nat, l: nat)
    requires y.Valid() && InTile(y, i, j) && InTile(y, k, l)
    requires y.Row(p, i) == y.Row(q, k) && y.Col(p, j) == y.Col(q, l)
    ensures p == q && i == k && j == l
  {
    PairUnique(p / y.cols, i, q / y.cols, k, y.tm);
    PairUnique(p % y.cols, j, q % y.cols, l, y.tn);
    assert p == p / y.cols * y.cols + p % y.cols;
    assert q == q / y.cols * y.cols + q % y.cols;
  }

  /** Every tile lies inside the packed shape. */
  lemma CellInShape(y: Layout, tiles: nat, p: nat, i: nat, j: nat)
    requires y.Valid() && p < tiles && InTile(y, i, j)
    ensures y.Row(p, i) < y.PackedRows(tiles) && y.Col(p, j) < y.RowElems()
  {
    CeilDivLeast(tiles, y.cols, CeilDiv(tiles, y.cols));
    DivLess(p, CeilDiv(tiles, y.cols), y.cols);
    PairBound(p / y.cols, i, CeilDiv(tiles, y.cols), y.tm);
    PairBound(p % y.cols, j, y.cols, y.tn);
  }

  /** Elements before an address, counted in strips of tn. */
  function Strip(y: Layout, p: nat, i: nat): nat
    requires y.cols > 0
  {
    p / y.cols * y.cols * y.tm + i * y.cols + p % y.cols
  }

  lemma AddressForm(y: Layout, p: nat, i: nat, j: nat)
    requires y.Valid()
    ensures y.Address(p, i, j) == Strip(y, p, i) * y.tn + j
  {
  }

  lemma BoundaryForm(y: Layout, b: nat)
    requires y.Valid()
    ensures b * y.TileElems() == (b / y.cols * y.cols * y.tm + b % y.cols * y.tm) * y.tn
  {
  }

  /** The guard a caller can check: tile b starts a packed row, or packed rows are one element high. */
  predicate Aligned(y: Layout, b: nat)
    requires y.cols > 0
  {
    y.tm == 1 || b % y.cols == 0
  }

  /** At an aligned boundary the tiles before b are exactly the elements before b * tm * tn. */
  lemma AlignedBoundary(y: Layout, b: nat, p: nat, i: nat, j: nat)
    requires y.Valid() && InTile(y, i, j) && Aligned(y, b)
    ensures p < b <==> y.Address(p, i, j) < b * y.TileElems()
  {
    AddressForm(y, p, i, j);
    var edge := AlignedEdge(y, b, p, i);
    ScaleCompare(Strip(y, p, i), j, edge, y.tn);
  }

  /** The strip at which an aligned boundary lies. */
  lemma AlignedEdge(y: Layout, b: nat, p: nat, i: nat) returns (edge: nat)
    requires y.Valid() && i < y.tm && Aligned(y, b)
    ensures b * y.TileElems() == edge * y.tn
    ensures Strip(y, p, i) < edge <==> p < b
  {
    BoundaryForm(y, b);
    AlignedStrips(y, b, p, i);
    edge := b / y.cols * y.cols * y.tm + b % y.cols * y.tm;
  }

  lemma AlignedStrips(y: Layout, b: nat, p: nat, i: nat)
    requires y.Valid() && i < y.tm && Aligned(y, b)
    ensures Strip(y, p, i) < b / y.cols * y.cols * y.tm + b % y.cols * y.tm <==> p < b
  {
    StripsCompare(p, p / y.cols, i, p % y.cols, b, b / y.cols, b % y.cols, y.cols, y.tm);
  }

  lemma StripsCompare(p: nat, q: nat, i: nat, r: nat, b: nat, qb: nat, rb: nat, w: nat, tm: nat)
    requires p == q * w + r && r < w && b == qb * w + rb && rb < w && i < tm
    requires tm == 1 || rb == 0
    ensures q * w * tm + i * w + r < qb * w * tm + rb * tm <==> p < b
  {
    if tm == 1 {
      OneRowStrips(p, q, r, b, qb, rb, w, tm);
    } else {
      AlignedRows(q, i, r, qb, w, tm);
      ScaleCompare(q, r, qb, w);
    }
  }

  lemma OneRowStrips(p: nat, q: nat, r: nat, b: nat, qb: nat, rb: nat, w: nat, tm: nat)
    requires tm == 1 && p == q * w + r && b == qb * w + rb
    ensures q * w * tm + 0 * w + r == p && qb * w * tm + rb * tm == b
  {
  }

  lemma ScaleCompare(u: nat, j: nat, v: nat, n: nat)
    requires j < n
    ensures u * n + j < v * n <==> u < v
  {
    if u < v {
      PairBound(u, j, v, n);
    } else {
      MulLe(v, u, n);
    }
  }

  /** Row i, column r of packed row q starts before packed row qb exactly when q < qb. */
  lemma AlignedRows(q: nat, i: nat, r: nat, qb: nat, w: nat, tm: nat)
    requires i < tm && r < w
    ensures q * w * tm + i * w + r < qb * w * tm <==> q < qb
  {
    PairBound(i, r, tm, w);
    MulAssoc(q, w, tm);
    MulAssoc(qb, w, tm);
    MulPos(w, tm);
    assert w * tm == tm * w;
    if q < qb {
      PairBound(q, i * w + r, qb, w * tm);
    } else {
      MulLe(qb, q, w * tm);
    }
  }

  /** At any other boundary the first element of tile b lies before it ... */
  lemma MisalignedBoundary(y: Layout, b: nat)
    requires y.Valid() && !Aligned(y, b)
    ensures y.Address(b, 0, 0) < b * y.TileElems()
  {
    var r := b % y.cols;
    AddressForm(y, b, 0, 0);
    BoundaryForm(y, b);
    MulLe(2, y.tm, r);
    ScaleCompare(Strip(y, b, 0), 0, b / y.cols * y.cols * y.tm + r * y.tm, y.tn);
  }

  lemma TailStrip(base: int, r: nat, w: nat, tm: nat)
    requires 0 < r < w && tm > 1
    ensures base + (tm - 1) * w + (r - 1) >= base + r * tm
  {
    MulLe(r + 1, w, tm - 1);
    assert (r + 1) * (tm - 1) == r * tm - r + tm - 1;
    assert w * (tm - 1) == (tm - 1) * w;
  }

  /** The strip of a boundary that is not aligned, and the last strip of the tile before it. */
  lemma MisalignedEdge(y: Layout, b: nat) returns (edge: nat)
    requires y.Valid() && !Aligned(y, b)
    ensures b > 0 && b * y.TileElems() == edge * y.tn && Strip(y, b - 1, y.tm - 1) >= edge
  {
    var w, tm, q, r := y.cols, y.tm, b / y.cols, b % y.cols;
    DivModUnique(b - 1, q, r - 1, w);
    BoundaryForm(y, b);
    edge := q * w * tm + r * tm;
    TailStrip(q * w * tm, r, w, tm);
  }

  /** ... and the last row of tile b - 1 lies after it. */
  lemma MisalignedTail(y: Layout, b: nat)
    requires y.Valid() && !Aligned(y, b)
    ensures b > 0 && y.Address(b - 1, y.tm - 1, 0) >= b * y.TileElems()
  {
    var edge := MisalignedEdge(y, b);
    AddressForm(y, b - 1, y.tm - 1, 0);
    ScaleCompare(Strip(y, b - 1, y.tm - 1), 0, edge, y.tn);
  }

  /** The address ranges [start, end) * tm * tn that the stream hands to the collectives cut the
      packed output exactly at tile b if and only if b is aligned. */
  lemma BoundaryExact(y: Layout, b: nat)
    requires y.Valid()
    ensures Aligned(y, b) <==>
            forall p: nat, i: nat, j: nat :: InTile(y, i, j) ==>
              (p < b <==> y.Address(p, i, j) < b * y.TileElems())
  {
    if Aligned(y, b) {
      forall p: nat, i: nat, j: nat | InTile(y, i, j)
        ensures p < b <==> y.Address(p, i, j) < b * y.TileElems()
      {
        AlignedBoundary(y, b, p, i, j);
      }
    } else {
      MisalignedBoundary(y, b);
      assert InTile(y, 0, 0);
    }
  }
}
