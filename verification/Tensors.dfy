/** Contiguous tensors in row-major order: linear indices, reshape and movedim. */
module Tensors {
  import opened Arith

  type Shape = seq<nat>
  type Index = seq<nat>

  function Prod(shape: Shape): nat {
    if shape == [] then 1 else (MulNonneg(shape[0], Prod(shape[1..])); shape[0] * Prod(shape[1..]))
  }

  ghost predicate InBounds(shape: Shape, idx: Index) {
    |idx| == |shape| && forall k :: 0 <= k < |shape| ==> idx[k] < shape[k]
  }

  /** Row-major position of a multi-index. */
  function Ravel(shape: Shape, idx: Index): nat
    requires |idx| == |shape|
  {
    if shape == [] then 0
    else
      MulNonneg(idx[0], Prod(shape[1..]));
      idx[0] * Prod(shape[1..]) + Ravel(shape[1..], idx[1..])
  }

  lemma {:induction false} RavelBound(shape: Shape, idx: Index)
    requires InBounds(shape, idx)
    ensures Ravel(shape, idx) < Prod(shape)
  {
    if shape != [] {
      RavelBound(shape[1..], idx[1..]);
      PairBound(idx[0], Ravel(shape[1..], idx[1..]), shape[0], Prod(shape[1..]));
    }
  }

  /** Multi-index of a row-major position. */
  function Unravel(shape: Shape, p: nat): (idx: Index)
    requires p < Prod(shape)
    ensures |idx| == |shape|
  {
    if shape == [] then []
    else
      var rest := Prod(shape[1..]);
      UnravelStep(p, shape[0], rest);
      [p / rest] + Unravel(shape[1..], p % rest)
  }

  lemma UnravelStep(p: nat, n: nat, rest: nat)
    requires p < n * rest
    ensures rest > 0 && 0 <= p / rest < n && 0 <= p % rest < rest
  {
  }

  /** The first index and the position in the rest. */
  lemma UnravelParts(shape: Shape, p: nat) returns (q: nat, m: nat)
    requires shape != [] && p < Prod(shape)
    ensures q < shape[0] && m < Prod(shape[1..]) && p == q * Prod(shape[1..]) + m
    ensures Unravel(shape, p) == [q] + Unravel(shape[1..], m)
  {
    var rest := Prod(shape[1..]);
    UnravelStep(p, shape[0], rest);
    q, m := p / rest, p % rest;
    DivBounds(p, rest);
  }

  lemma {:induction false} UnravelRavel(shape: Shape, p: nat)
    requires p < Prod(shape)
    ensures InBounds(shape, Unravel(shape, p)) && Ravel(shape, Unravel(shape, p)) == p
  {
    if shape != [] {
      var q, m := UnravelParts(shape, p);
      UnravelRavel(shape[1..], m);
      assert Unravel(shape, p)[1..] == Unravel(shape[1..], m);
    }
  }

  /** Row-major: an index whose first differing entry is smaller is at a smaller position. */
  lemma {:induction false} RavelOrder(shape: Shape, i: Index, j: Index, k: nat)
    requires InBounds(shape, i) && InBounds(shape, j) && k < |shape| && i[..k] == j[..k] && i[k] < j[k]
    ensures Ravel(shape, i) < Ravel(shape, j)
  {
    var rest := Prod(shape[1..]);
    RavelBound(shape[1..], i[1..]);
    RavelBound(shape[1..], j[1..]);
    if k == 0 {
      LeadingDigit(i[0], j[0], rest, Ravel(shape[1..], i[1..]), Ravel(shape[1..], j[1..]));
    } else {
      assert i[..k][0] == j[..k][0];
      assert i[1..][..k - 1] == i[..k][1..] && j[1..][..k - 1] == j[..k][1..];
      RavelOrder(shape[1..], i[1..], j[1..], k - 1);
    }
  }

  lemma LeadingDigit(a: nat, b: nat, rest: nat, x: nat, y: nat)
    requires a < b && x < rest
    ensures a * rest + x < b * rest + y
  {
    MulLe(a + 1, b, rest);
    MulSucc(a, rest);
  }

  /** Different in-bounds indices are at different positions. */
  lemma {:induction false} RavelInjective(shape: Shape, i: Index, j: Index)
    requires InBounds(shape, i) && InBounds(shape, j) && Ravel(shape, i) == Ravel(shape, j)
    ensures i == j
  {
    if shape != [] {
      RavelBound(shape[1..], i[1..]);
      RavelBound(shape[1..], j[1..]);
      PairUnique(i[0], Ravel(shape[1..], i[1..]), j[0], Ravel(shape[1..], j[1..]), Prod(shape[1..]));
      RavelInjective(shape[1..], i[1..], j[1..]);
      assert i == [i[0]] + i[1..] && j == [j[0]] + j[1..];
    }
  }

  lemma {:induction false} ProdAppend(a: Shape, b: Shape)
    ensures Prod(a + b) == Prod(a) * Prod(b)
  {
    if a == [] {
      assert a + b == b;
    } else {
      assert (a + b)[1..] == a[1..] + b;
      ProdAppend(a[1..], b);
      Associate(a[0], Prod(a[1..]), Prod(b));
    }
  }

  lemma Associate(x: int, y: int, z: int)
    ensures x * (y * z) == x * y * z
  {
  }

  /** Positions of concatenated indices are two-digit numbers. */
  lemma {:induction false} RavelAppend(a: Shape, b: Shape, i: Index, j: Index)
    requires |i| == |a| && |j| == |b|
    ensures Ravel(a + b, i + j) == Ravel(a, i) * Prod(b) + Ravel(b, j)
  {
    if a == [] {
      assert a + b == b && i + j == j;
    } else {
      assert (a + b)[1..] == a[1..] + b && (i + j)[1..] == i[1..] + j;
      RavelAppend(a[1..], b, i[1..], j);
      ProdAppend(a[1..], b);
      Regroup(i[0], Prod(a[1..]), Prod(b), Ravel(a[1..], i[1..]), Ravel(b, j));
    }
  }

  lemma Regroup(x: int, p: int, q: int, r: int, s: int)
    ensures x * (p * q) + (r * q + s) == (x * p + r) * q + s
  {
  }

  datatype Tensor = Tensor(shape: Shape, data: seq<int>) {
    ghost predicate Valid() {
      |data| == Prod(shape)
    }
  }

  function At(t: Tensor, idx: Index): int
    requires |idx| == |t.shape| && Ravel(t.shape, idx) < |t.data|
  {
    t.data[Ravel(t.shape, idx)]
  }

  /** Reshape keeps the row-major data. */
  function Reshape(t: Tensor, shape: Shape): Tensor {
    Tensor(shape, t.data)
  }

  /** The shape after the first dimension moves to place d. */
  function MovedShape(shape: Shape, d: nat): Shape
    requires d < |shape|
  {
    shape[1..d + 1] + [shape[0]] + shape[d + 1..]
  }

  /** The index, before the move, of the element at idx after it. */
  function BeforeMove(idx: Index, d: nat): Index
    requires d < |idx|
  {
    [idx[d]] + idx[..d] + idx[d + 1..]
  }

  lemma BeforeMoveInBounds(shape: Shape, d: nat, idx: Index)
    requires d < |shape| && InBounds(MovedShape(shape, d), idx)
    ensures InBounds(shape, BeforeMove(idx, d))
  {
  }

  ghost predicate IsMoved(t: Tensor, d: nat, r: Tensor)
    requires t.Valid() && d < |t.shape|
  {
    && r.shape == MovedShape(t.shape, d) && r.Valid()
    && forall idx :: InBounds(r.shape, idx) ==> MovedEntry(t, d, r, idx)
  }

  ghost predicate MovedEntry(t: Tensor, d: nat, r: Tensor, idx: Index)
    requires t.Valid() && r.Valid() && d < |t.shape| && r.shape == MovedShape(t.shape, d) && InBounds(r.shape, idx)
  {
    RavelBound(r.shape, idx);
    BeforeMoveInBounds(t.shape, d, idx);
    RavelBound(t.shape, BeforeMove(idx, d));
    At(r, idx) == At(t, BeforeMove(idx, d))
  }

  function MovedAt(t: Tensor, d: nat, p: nat): int
    requires t.Valid() && d < |t.shape| && p < Prod(MovedShape(t.shape, d))
  {
    var idx := Unravel(MovedShape(t.shape, d), p);
    UnravelRavel(MovedShape(t.shape, d), p);
    BeforeMoveInBounds(t.shape, d, idx);
    RavelBound(t.shape, BeforeMove(idx, d));
    At(t, BeforeMove(idx, d))
  }

  /** movedim(0, d), with the elements laid out in their new row-major order. */
  function MoveDim0(t: Tensor, d: nat): (r: Tensor)
    requires t.Valid() && d < |t.shape|
    ensures r.shape == MovedShape(t.shape, d) && r.Valid()
  {
    var shape := MovedShape(t.shape, d);
    Tensor(shape, seq(Prod(shape), p requires 0 <= p < Prod(shape) => MovedAt(t, d, p)))
  }

  lemma MoveDim0Moves(t: Tensor, d: nat)
    requires t.Valid() && d < |t.shape|
    ensures IsMoved(t, d, MoveDim0(t, d))
  {
    var r := MoveDim0(t, d);
    forall idx | InBounds(r.shape, idx) ensures MovedEntry(t, d, r, idx) {
      RavelBound(r.shape, idx);
      var p := Ravel(r.shape, idx);
      UnravelRavel(r.shape, p);
      RavelInjective(r.shape, idx, Unravel(r.shape, p));
    }
  }
}
