/**
 `OoverlapAllReduce.all_gather` for any dimension: the rank-major gather is reshaped, its rank
 dimension moved, and the two dimensions merged.  The result is the concatenation.
 */
module GatherLayout {
  import opened Arith
  import opened Tensors
  import SlotPool

  datatype Result = Gathered(tensor: Tensor) | NoDimension | InvalidDim | EmptyTensor

  /** The same shape on every rank, as the collective requires. */
  ghost predicate SameShapes(inputs: seq<Tensor>, shape: Shape) {
    |inputs| > 0 && forall r :: 0 <= r < |inputs| ==> inputs[r].shape == shape && inputs[r].Valid()
  }

  function Datas(inputs: seq<Tensor>): seq<seq<int>> {
    seq(|inputs|, r requires 0 <= r < |inputs| => inputs[r].data)
  }

  /** What the slot pool returns: the shards in rank order, the first dimension multiplied. */
  function RankMajor(inputs: seq<Tensor>, shape: Shape): Tensor
    requires |shape| > 0
  {
    MulNonneg(|inputs|, shape[0]);
    Tensor([|inputs| * shape[0]] + shape[1..], SlotPool.Concat(Datas(inputs)))
  }

  lemma RankMajorValid(inputs: seq<Tensor>, shape: Shape)
    requires SameShapes(inputs, shape)
    ensures |SlotPool.Concat(Datas(inputs))| == |inputs| * Prod(shape) == Prod([|inputs|] + shape)
    ensures |shape| > 0 ==> RankMajor(inputs, shape).Valid()
  {
    SlotPool.ConcatSize(Datas(inputs), Prod(shape));
    assert ([|inputs|] + shape)[1..] == shape;
    if |shape| > 0 {
      MulNonneg(|inputs|, shape[0]);
      var merged := [|inputs| * shape[0]] + shape[1..];
      assert merged[1..] == shape[1..];
      Associate(|inputs|, shape[0], Prod(shape[1..]));
    }
  }

  function CatShape(shape: Shape, d: nat, world: nat): Shape
    requires d < |shape|
  {
    MulNonneg(world, shape[d]);
    shape[..d] + [world * shape[d]] + shape[d + 1..]
  }

  function NormalizedDim(dim: int, rank: nat): int {
    if dim < 0 then dim + rank else dim
  }

  /** The layout part of `all_gather`; inputs[r] is what rank r passes. */
  function AllGather(inputs: seq<Tensor>, shape: Shape, dim: int): Result
    requires SameShapes(inputs, shape)
  {
    var d := NormalizedDim(dim, |shape|);
    if shape == [] then NoDimension
    else if d < 0 || d >= |shape| then InvalidDim
    else if Prod(shape) == 0 then EmptyTensor
    else
      var gathered := RankMajor(inputs, shape);
      if d == 0 then Gathered(gathered)
      else
        RankMajorValid(inputs, shape);
        var output := MoveDim0(Reshape(gathered, [|inputs|] + shape), d);
        Gathered(Reshape(output, CatShape(shape, d, |inputs|)))
  }

  /** Concatenation along d: position c of dimension d comes from rank c / shape[d], place c % shape[d]. */
  ghost predicate IsConcatenation(inputs: seq<Tensor>, shape: Shape, d: nat, t: Tensor)
    requires SameShapes(inputs, shape) && d < |shape|
  {
    && t.shape == CatShape(shape, d, |inputs|) && t.Valid()
    && forall idx :: InBounds(t.shape, idx) ==> IsCatEntry(inputs, shape, d, t, idx)
  }

  function Within(shape: Shape, d: nat, idx: Index): Index
    requires d < |shape| == |idx| && shape[d] > 0
  {
    idx[d := idx[d] % shape[d]]
  }

  ghost predicate IsCatEntry(inputs: seq<Tensor>, shape: Shape, d: nat, t: Tensor, idx: Index)
    requires SameShapes(inputs, shape) && d < |shape| && t.shape == CatShape(shape, d, |inputs|)
    requires t.Valid() && InBounds(t.shape, idx)
  {
    RavelBound(t.shape, idx);
    SourceInBounds(shape, d, |inputs|, idx);
    RavelBound(shape, Within(shape, d, idx));
    At(t, idx) == At(inputs[idx[d] / shape[d]], Within(shape, d, idx))
  }

  lemma SourceInBounds(shape: Shape, d: nat, world: nat, idx: Index)
    requires d < |shape| && InBounds(CatShape(shape, d, world), idx)
    ensures shape[d] > 0 && 0 <= idx[d] / shape[d] < world && InBounds(shape, Within(shape, d, idx))
  {
  }

  // ---------- positions ----------

  lemma MergePositions(a: int, w: int, x: int, p: int, c: int, r: int, b: int, j: int)
    requires c == r * x + b
    ensures a * (w * x * p) + (c * p + j) == a * (w * (x * p)) + (r * (x * p) + (b * p + j))
  {
  }

  lemma RavelCons(x: nat, post: Shape, c: nat, j: Index)
    requires |j| == |post|
    ensures Ravel([x] + post, [c] + j) == c * Prod(post) + Ravel(post, j)
    ensures Prod([x] + post) == x * Prod(post)
  {
  }

  /** The merged dimension and the pair (rank, place) give the same position. */
  lemma SplitDimension(pre: Shape, w: nat, x: nat, wx: nat, post: Shape, i: Index, c: nat, r: nat, b: nat, j: Index)
    requires |i| == |pre| && |j| == |post| && wx == w * x && c == r * x + b
    ensures Ravel(pre + ([wx] + post), i + ([c] + j)) == Ravel(pre + ([w] + ([x] + post)), i + ([r] + ([b] + j)))
  {
    RavelCons(wx, post, c, j);
    RavelCons(x, post, b, j);
    RavelCons(w, [x] + post, r, [b] + j);
    RavelAppend(pre, [wx] + post, i, [c] + j);
    RavelAppend(pre, [w] + ([x] + post), i, [r] + ([b] + j));
    MergePositions(Ravel(pre, i), w, x, Prod(post), c, r, b, Ravel(post, j));
  }

  /** Element `inner` of rank r in the rank-major data. */
  lemma RankMajorAt(inputs: seq<Tensor>, shape: Shape, r: nat, inner: Index)
    requires SameShapes(inputs, shape) && r < |inputs| && InBounds(shape, inner)
    ensures Ravel(shape, inner) < Prod(shape)
    ensures Ravel([|inputs|] + shape, [r] + inner) < |SlotPool.Concat(Datas(inputs))|
    ensures SlotPool.Concat(Datas(inputs))[Ravel([|inputs|] + shape, [r] + inner)] == inputs[r].data[Ravel(shape, inner)]
  {
    RavelBound(shape, inner);
    RavelCons(|inputs|, shape, r, inner);
    SlotPool.ShardsFill(Datas(inputs), Prod(shape), r, Ravel(shape, inner));
  }

  lemma FirstDimension(inputs: seq<Tensor>, shape: Shape, t: Tensor, idx: Index)
    requires SameShapes(inputs, shape) && |shape| > 0 && t == RankMajor(inputs, shape) && t.Valid()
    requires t.shape == CatShape(shape, 0, |inputs|) && InBounds(t.shape, idx)
    ensures IsCatEntry(inputs, shape, 0, t, idx)
  {
    SourceInBounds(shape, 0, |inputs|, idx);
    var inner := Within(shape, 0, idx);
    var r := idx[0] / shape[0];
    RankMajorAt(inputs, shape, r, inner);
    DivBounds(idx[0], shape[0]);
    FirstPosition(shape, |inputs|, t.shape[0], idx[0], r, inner[0], idx[1..]);
    assert [t.shape[0]] + shape[1..] == t.shape && [idx[0]] + idx[1..] == idx && [inner[0]] + idx[1..] == inner;
  }

  lemma FirstPosition(shape: Shape, world: nat, wx: nat, c: nat, r: nat, b: nat, j: Index)
    requires |shape| > 0 && |j| == |shape| - 1 && wx == world * shape[0]
    requires c == r * shape[0] + b
    ensures Ravel([wx] + shape[1..], [c] + j) == Ravel([world] + shape, [r] + ([b] + j))
  {
    var x, post := shape[0], shape[1..];
    RavelCons(wx, post, c, j);
    FirstPair(shape, world, r, b, j);
    MergePositions(0, world, x, Prod(post), c, r, b, Ravel(post, j));
  }

  lemma FirstPair(shape: Shape, world: nat, r: nat, b: nat, j: Index)
    requires |shape| > 0 && |j| == |shape| - 1
    ensures Ravel([world] + shape, [r] + ([b] + j)) == r * (shape[0] * Prod(shape[1..])) + (b * Prod(shape[1..]) + Ravel(shape[1..], j))
  {
  }

  /** The index in the moved tensor, with rank and place side by side. */
  function PairIndex(idx: Index, d: nat, x: nat): Index
    requires d < |idx| && x > 0
  {
    idx[..d] + ([idx[d] / x] + ([idx[d] % x] + idx[d + 1..]))
  }

  lemma PairIndexInBounds(shape: Shape, d: nat, world: nat, idx: Index)
    requires d < |shape| && shape[d] > 0 && InBounds(CatShape(shape, d, world), idx)
    ensures InBounds(MovedShape([world] + shape, d), PairIndex(idx, d, shape[d]))
  {
    SourceInBounds(shape, d, world, idx);
    MovedShapeParts(shape, d, world);
    PairInside(shape, d, world, idx, Within(shape, d, idx), idx[d] / shape[d], idx[d] % shape[d]);
  }

  lemma PairInside(shape: Shape, d: nat, world: nat, idx: Index, inner: Index, r: nat, b: nat)
    requires d < |shape| == |idx| && InBounds(shape, inner) && inner == idx[d := b] && r < world
    ensures InBounds(shape[..d] + ([world] + ([shape[d]] + shape[d + 1..])), idx[..d] + ([r] + ([b] + idx[d + 1..])))
  {
    var m := shape[..d] + ([world] + ([shape[d]] + shape[d + 1..]));
    var pi := idx[..d] + ([r] + ([b] + idx[d + 1..]));
    forall k | 0 <= k < |m| ensures pi[k] < m[k] {
      if k < d {
        assert inner[k] < shape[k];
      } else if k > d {
        assert inner[k - 1] < shape[k - 1];
      }
    }
  }

  lemma PairIndexBefore(shape: Shape, d: nat, idx: Index)
    requires d < |shape| == |idx| && shape[d] > 0
    ensures BeforeMove(PairIndex(idx, d, shape[d]), d) == [idx[d] / shape[d]] + Within(shape, d, idx)
  {
  }

  lemma PairIndexPosition(shape: Shape, d: nat, world: nat, wx: nat, x: nat, c: nat, r: nat, b: nat, idx: Index)
    requires d < |shape| == |idx| && x == shape[d] && wx == world * x && c == idx[d] && c == r * x + b
    ensures Ravel(shape[..d] + ([wx] + shape[d + 1..]), idx)
         == Ravel(MovedShape([world] + shape, d), idx[..d] + ([r] + ([b] + idx[d + 1..])))
  {
    MovedShapeParts(shape, d, world);
    assert idx == idx[..d] + ([c] + idx[d + 1..]);
    SplitDimension(shape[..d], world, x, wx, shape[d + 1..], idx[..d], c, r, b, idx[d + 1..]);
  }

  lemma MovedShapeParts(shape: Shape, d: nat, world: nat)
    requires d < |shape|
    ensures MovedShape([world] + shape, d) == shape[..d] + ([world] + ([shape[d]] + shape[d + 1..]))
  {
  }

  lemma PairIndexFacts(shape: Shape, d: nat, world: nat, idx: Index)
    requires d < |shape| && shape[d] > 0 && InBounds(CatShape(shape, d, world), idx)
    ensures Ravel(CatShape(shape, d, world), idx) == Ravel(MovedShape([world] + shape, d), PairIndex(idx, d, shape[d]))
  {
    var x, c, wx := shape[d], idx[d], CatShape(shape, d, world)[d];
    DivBounds(c, x);
    PairIndexPosition(shape, d, world, wx, x, c, c / x, c % x, idx);
    assert CatShape(shape, d, world) == shape[..d] + ([wx] + shape[d + 1..]);
  }

  lemma LaterDimension(inputs: seq<Tensor>, shape: Shape, d: nat, t: Tensor, moved: Tensor, idx: Index)
    requires SameShapes(inputs, shape) && 0 < d < |shape|
    requires |SlotPool.Concat(Datas(inputs))| == Prod([|inputs|] + shape)
    requires IsMoved(Tensor([|inputs|] + shape, SlotPool.Concat(Datas(inputs))), d, moved)
    requires t.shape == CatShape(shape, d, |inputs|) && t.data == moved.data && t.Valid() && InBounds(t.shape, idx)
    ensures IsCatEntry(inputs, shape, d, t, idx)
  {
    SourceInBounds(shape, d, |inputs|, idx);
    PairIndexInBounds(shape, d, |inputs|, idx);
    PairIndexBefore(shape, d, idx);
    PairIndexFacts(shape, d, |inputs|, idx);
    var whole := Tensor([|inputs|] + shape, SlotPool.Concat(Datas(inputs)));
    assert MovedEntry(whole, d, moved, PairIndex(idx, d, shape[d]));
    RankMajorAt(inputs, shape, idx[d] / shape[d], Within(shape, d, idx));
  }

  lemma Swap(a: int, w: int, p: int)
    ensures a * (w * p) == w * (a * p)
  {
  }

  lemma {:induction false} CatSize(shape: Shape, d: nat, world: nat)
    requires d < |shape|
    ensures Prod(CatShape(shape, d, world)) == world * Prod(shape)
    decreases d
  {
    var cat := CatShape(shape, d, world);
    if d == 0 {
      assert cat[1..] == shape[1..];
      Associate(world, shape[0], Prod(shape[1..]));
    } else {
      assert cat[1..] == CatShape(shape[1..], d - 1, world);
      CatSize(shape[1..], d - 1, world);
      Swap(shape[0], world, Prod(shape[1..]));
    }
  }

  /** Gathering along any dimension, counted from either end, is concatenation; anything else is refused. */
  lemma GatherIsConcatenation(inputs: seq<Tensor>, shape: Shape, dim: int)
    requires SameShapes(inputs, shape)
    ensures AllGather(inputs, shape, dim).Gathered? <==> -|shape| <= dim < |shape| && 0 !in shape
    ensures AllGather(inputs, shape, dim).Gathered? ==>
              var d, t := if dim < 0 then dim + |shape| else dim, AllGather(inputs, shape, dim).tensor;
              t.shape == shape[d := |inputs| * shape[d]] && IsConcatenation(inputs, shape, d, t)
  {
    GatherRefuses(inputs, shape, dim);
    if AllGather(inputs, shape, dim).Gathered? {
      var d := NormalizedDim(dim, |shape|);
      CatShapeIs(shape, d, |inputs|);
      if d == 0 {
        FirstConcatenates(inputs, shape);
      } else {
        LaterConcatenates(inputs, shape, d);
      }
    }
  }

  /** Which error: no dimension at all, one out of range, or an empty tensor. */
  lemma GatherRefuses(inputs: seq<Tensor>, shape: Shape, dim: int)
    requires SameShapes(inputs, shape)
    ensures AllGather(inputs, shape, dim) == NoDimension <==> shape == []
    ensures AllGather(inputs, shape, dim) == InvalidDim <==> shape != [] && !(-|shape| <= dim < |shape|)
    ensures AllGather(inputs, shape, dim) == EmptyTensor <==> -|shape| <= dim < |shape| && 0 in shape
  {
    EmptyShape(shape);
  }

  lemma CatShapeIs(shape: Shape, d: nat, world: nat)
    requires d < |shape|
    ensures 0 <= world * shape[d] && CatShape(shape, d, world) == shape[d := world * shape[d]]
  {
    MulNonneg(world, shape[d]);
  }

  /** A tensor is empty exactly if a dimension is. */
  lemma {:induction false} EmptyShape(shape: Shape)
    ensures Prod(shape) == 0 <==> 0 in shape
  {
    if shape != [] {
      EmptyShape(shape[1..]);
      assert shape == [shape[0]] + shape[1..];
      if shape[0] > 0 && Prod(shape[1..]) > 0 {
        MulPos(shape[0], Prod(shape[1..]));
      }
    }
  }

  lemma FirstConcatenates(inputs: seq<Tensor>, shape: Shape)
    requires SameShapes(inputs, shape) && |shape| > 0
    ensures IsConcatenation(inputs, shape, 0, RankMajor(inputs, shape))
  {
    var t := RankMajor(inputs, shape);
    RankMajorValid(inputs, shape);
    assert shape[..0] == [] && [] + [|inputs| * shape[0]] == [|inputs| * shape[0]];
    forall idx | InBounds(t.shape, idx) ensures IsCatEntry(inputs, shape, 0, t, idx) {
      FirstDimension(inputs, shape, t, idx);
    }
  }

  lemma LaterConcatenates(inputs: seq<Tensor>, shape: Shape, d: nat)
    requires SameShapes(inputs, shape) && 0 < d < |shape|
    ensures var whole := Reshape(RankMajor(inputs, shape), [|inputs|] + shape);
            whole.Valid() &&
            IsConcatenation(inputs, shape, d, Reshape(MoveDim0(whole, d), CatShape(shape, d, |inputs|)))
  {
    RankMajorValid(inputs, shape);
    var whole := Reshape(RankMajor(inputs, shape), [|inputs|] + shape);
    var t := Reshape(MoveDim0(whole, d), CatShape(shape, d, |inputs|));
    CatSize(shape, d, |inputs|);
    MoveDim0Moves(whole, d);
    MovedSize(whole.shape, d);
    assert whole.shape[1..] == shape;
    forall idx | InBounds(t.shape, idx) ensures IsCatEntry(inputs, shape, d, t, idx) {
      LaterDimension(inputs, shape, d, t, MoveDim0(whole, d), idx);
    }
  }

  lemma {:induction false} MovedSize(shape: Shape, d: nat)
    requires d < |shape|
    ensures Prod(MovedShape(shape, d)) == Prod(shape)
    decreases d
  {
    var m := MovedShape(shape, d);
    if d == 0 {
      assert m == shape;
    } else {
      var rest := [shape[0]] + shape[2..];
      assert rest[1..] == shape[2..] && shape[1..][1..] == shape[2..];
      assert rest[1..d] == shape[2..d + 1] && rest[d..] == shape[d + 1..];
      assert shape[1..d + 1] == [shape[1]] + shape[2..d + 1];
      assert m[1..] == shape[2..d + 1] + [shape[0]] + shape[d + 1..];
      assert m[0] == shape[1];
      MovedSize(rest, d - 1);
      Swap(shape[1], shape[0], Prod(shape[2..]));
    }
  }
}
