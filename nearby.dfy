/**
 * The default neighbour generator `nearby` of `connected_comp`.
 *
 * `nearby(point)` adds to `point` every offset tuple that `filter(all, ...)`
 * keeps from `itertools.product` of `range(-1, 2)` taken once per dimension, and
 * yields the sum when `np.all(lower <= nb) and np.all(nb < upper)` holds, with
 * `lower` the fixed array `[0, 0, 0]` and `upper` the shape.
 *
 * Two things in that generator differ from what it evidently means to do:
 *   - Python's `all` on a tuple is true exactly when no component is 0, so the
 *     kept offsets are the 2^d tuples whose every component is -1 or +1: only
 *     diagonal neighbours, never a neighbour sharing a coordinate with the point.
 *     Dropping only the zero offset is `filter(any, ...)`: the 3^d - 1 offsets
 *     of the Moore neighbourhood.
 *   - `[0, 0, 0] <= nb` broadcasts only when `nb` has 1 or 3 components; for any
 *     other rank (a 2-D image, say) numpy raises instead of comparing.
 * Both are modelled as written (`Offsets`, `NearbyAsWritten`, `DiagonalNearby`) and
 * as intended (`MooreOffsets`, `MooreNearby`). The labeller's `ConnectedCompAsWritten`
 * uses the former through `AsWrittenNeighbours`; `ConnectedCompIntended` uses the
 * latter through `IntendedNeighbours`.
 */
module Nearby {
  import opened Grid

  /** `itertools.repeat(xs, d)`, collected. */
  function Repeat(xs: seq<int>, d: nat): (rs: seq<seq<int>>)
    ensures |rs| == d && forall k :: 0 <= k < d ==> rs[k] == xs
  {
    seq(d, _ => xs)
  }

  /** Python's `all(t)` on an integer tuple: no component is zero. */
  predicate All(t: seq<int>)
  {
    forall k :: 0 <= k < |t| ==> t[k] != 0
  }

  /** Python's `any(t)` on an integer tuple: some component is non-zero. */
  predicate Any(t: seq<int>)
  {
    exists k :: 0 <= k < |t| && t[k] != 0
  }

  /** `filter(keep, ts)`, collected. */
  function Filter(keep: seq<int> -> bool, ts: seq<seq<int>>): (r: seq<seq<int>>)
    ensures |r| <= |ts|
  {
    if ts == [] then [] else (if keep(ts[0]) then [ts[0]] else []) + Filter(keep, ts[1..])
  }

  /** `b` to the power `d`. */
  function Pow(b: nat, d: nat): nat
  {
    if d == 0 then 1 else b * Pow(b, d - 1)
  }

  /** A positive base has positive powers. */
  lemma {:induction false} PowPositive(b: nat, d: nat)
    requires b > 0
    ensures Pow(b, d) > 0
  {
    if d > 0 {
      PowPositive(b, d - 1);
    }
  }

  /** `filter` keeps exactly the elements satisfying its predicate. */
  lemma {:induction false} FilterMembership(keep: seq<int> -> bool, ts: seq<seq<int>>, t: seq<int>)
    ensures t in Filter(keep, ts) <==> t in ts && keep(t)
  {
    if ts != [] {
      FilterMembership(keep, ts[1..], t);
      assert t in ts <==> t == ts[0] || t in ts[1..];
    }
  }

  /** Filtering a concatenation filters each part. */
  lemma {:induction false} FilterAppend(keep: seq<int> -> bool, a: seq<seq<int>>, b: seq<seq<int>>)
    ensures Filter(keep, a + b) == Filter(keep, a) + Filter(keep, b)
  {
    if a != [] {
      assert (a + b)[1..] == a[1..] + b;
      FilterAppend(keep, a[1..], b);
    } else {
      assert a + b == b;
    }
  }

  /** `Prepend` distributes over concatenation. */
  lemma PrependAppend(x: int, a: seq<seq<int>>, b: seq<seq<int>>)
    ensures Prepend(x, a + b) == Prepend(x, a) + Prepend(x, b)
  {
  }

  /** `Spread` over `range(-1, 2)`, unfolded. */
  lemma SpreadOfThree(ts: seq<seq<int>>)
    ensures Spread([-1, 0, 1], ts) == Prepend(-1, ts) + Prepend(0, ts) + Prepend(1, ts)
  {
    assert [-1, 0, 1][1..] == [0, 1] && [0, 1][1..] == [1] && [1][1..] == [];
    assert Spread([1], ts) == Prepend(1, ts) + [];
    assert Spread([0, 1], ts) == Prepend(0, ts) + Spread([1], ts);
  }

  /** `Spread` over the two non-zero steps, unfolded. */
  lemma SpreadOfTwo(ts: seq<seq<int>>)
    ensures Spread([-1, 1], ts) == Prepend(-1, ts) + Prepend(1, ts)
  {
    assert [-1, 1][1..] == [1] && [1][1..] == [];
    assert Spread([1], ts) == Prepend(1, ts) + [];
  }

  lemma {:induction false} CardOfRepeat(xs: seq<int>, d: nat)
    ensures Card(Repeat(xs, d)) == Pow(|xs|, d)
  {
    if d > 0 {
      assert Repeat(xs, d)[1..] == Repeat(xs, d - 1);
      CardOfRepeat(xs, d - 1);
    }
  }

  // ---------------------------------------------------------------------------
  // The offsets as written: filter(all, ...)

  /** The offsets `nearby` tries, in the order it tries them. */
  function Offsets(dim: nat): seq<seq<int>>
  {
    Filter(All, Product(Repeat([-1, 0, 1], dim)))
  }

  /** A tuple headed by `x` has no zero component exactly when `x` is non-zero and its tail has none. */
  lemma AllCons(x: int, t: seq<int>)
    ensures All([x] + t) <==> x != 0 && All(t)
  {
    var h := [x] + t;
    assert h[0] == x;
    assert forall k :: 0 <= k < |t| ==> h[k + 1] == t[k];
  }

  /** Prefixing a component `x` keeps a tuple exactly when `x` is non-zero and the tuple was kept. */
  lemma {:induction false} FilterAllPrepend(x: int, ts: seq<seq<int>>)
    ensures Filter(All, Prepend(x, ts)) == if x == 0 then [] else Prepend(x, Filter(All, ts))
  {
    if ts != [] {
      var h := [x] + ts[0];
      var ps := Prepend(x, ts);
      assert ps[0] == h;
      assert ps[1..] == Prepend(x, ts[1..]);
      FilterAllPrepend(x, ts[1..]);
      AllCons(x, ts[0]);
      assert Filter(All, ps) == (if All(h) then [h] else []) + Filter(All, ps[1..]);
      if x != 0 {
        PrependAppend(x, if All(ts[0]) then [ts[0]] else [], Filter(All, ts[1..]));
        assert Prepend(x, if All(ts[0]) then [ts[0]] else []) == if All(h) then [h] else [];
      }
    }
  }

  /** Filtering one level of the product of `range(-1, 2)` drops the block headed by 0. */
  lemma FilterAllSpreadSteps(rest: seq<seq<int>>)
    ensures Filter(All, Spread([-1, 0, 1], rest)) == Spread([-1, 1], Filter(All, rest))
  {
    var kept := Filter(All, rest);
    var minus, zero, plus := Prepend(-1, rest), Prepend(0, rest), Prepend(1, rest);
    assert Filter(All, minus + zero) == Prepend(-1, kept) by {
      FilterAppend(All, minus, zero);
      FilterAllPrepend(-1, rest);
      FilterAllPrepend(0, rest);
      assert Filter(All, minus + zero) == Prepend(-1, kept) + [];
    }
    assert Filter(All, plus) == Prepend(1, kept) by {
      FilterAllPrepend(1, rest);
    }
    SpreadOfThree(rest);
    SpreadOfTwo(kept);
    FilterAppend(All, minus + zero, plus);
  }

  /**
   * `filter(all, ...)` keeps exactly the offsets built from -1 and +1 only, in product order:
   * the generator's neighbourhood is the 2^d diagonal offsets, not the 3^d - 1 Moore offsets.
   */
  lemma {:induction false} OffsetsAreDiagonal(dim: nat)
    ensures Offsets(dim) == Product(Repeat([-1, 1], dim))
  {
    if dim > 0 {
      assert Repeat([-1, 0, 1], dim)[1..] == Repeat([-1, 0, 1], dim - 1);
      assert Repeat([-1, 1], dim)[1..] == Repeat([-1, 1], dim - 1);
      OffsetsAreDiagonal(dim - 1);
      FilterAllSpreadSteps(Product(Repeat([-1, 0, 1], dim - 1)));
    }
  }

  /** A tuple is an all-±1 offset exactly when each of its `dim` components is -1 or 1. */
  lemma DiagonalMembership(dim: nat, t: seq<int>)
    ensures t in Product(Repeat([-1, 1], dim)) <==> |t| == dim && forall k :: 0 <= k < dim ==> t[k] == -1 || t[k] == 1
  {
    var pm := Repeat([-1, 1], dim);
    ProductMembership(pm, t);
    if |t| == dim {
      forall k | 0 <= k < dim
        ensures t[k] in pm[k] <==> t[k] == -1 || t[k] == 1
      {
        assert pm[k] == [-1, 1];
      }
    }
  }

  /** The offsets as written: exactly 2^d of them, each with every component -1 or +1. */
  lemma OffsetsShape(dim: nat)
    ensures |Offsets(dim)| == Pow(2, dim)
    ensures forall t :: t in Offsets(dim) <==> |t| == dim && forall k :: 0 <= k < dim ==> t[k] == -1 || t[k] == 1
  {
    OffsetsAreDiagonal(dim);
    ProductLength(Repeat([-1, 1], dim));
    CardOfRepeat([-1, 1], dim);
    forall t
      ensures t in Offsets(dim) <==> |t| == dim && forall k :: 0 <= k < dim ==> t[k] == -1 || t[k] == 1
    {
      DiagonalMembership(dim, t);
    }
  }

  // ---------------------------------------------------------------------------
  // The offsets as intended: filter(any, ...)

  /** Every offset of `range(-1, 2)` per dimension except the zero offset, in product order. */
  function MooreOffsets(dim: nat): seq<seq<int>>
  {
    Filter(Any, Product(Repeat([-1, 0, 1], dim)))
  }

  /** A tuple is a Moore offset exactly when it has `dim` components in -1..1, not all zero. */
  lemma MooreOffsetsMembership(dim: nat, t: seq<int>)
    ensures t in MooreOffsets(dim) <==> |t| == dim && (forall k :: 0 <= k < dim ==> -1 <= t[k] <= 1) && Any(t)
  {
    var pm := Repeat([-1, 0, 1], dim);
    FilterMembership(Any, Product(pm), t);
    ProductMembership(pm, t);
    if |t| == dim {
      forall k | 0 <= k < dim
        ensures t[k] in pm[k] <==> -1 <= t[k] <= 1
      {
        assert pm[k] == [-1, 0, 1];
      }
    }
  }

  /** Every Moore offset has one component per dimension. */
  lemma MooreOffsetsRank(dim: nat)
    ensures forall t :: t in MooreOffsets(dim) ==> |t| == dim
  {
    forall t | t in MooreOffsets(dim)
      ensures |t| == dim
    {
      MooreOffsetsMembership(dim, t);
    }
  }

  /** A tuple headed by `x` has a non-zero component exactly when `x` or its tail has one. */
  lemma AnyCons(x: int, t: seq<int>)
    ensures Any([x] + t) <==> x != 0 || Any(t)
  {
    var h := [x] + t;
    assert h[0] == x;
    assert forall k :: 0 <= k < |t| ==> h[k + 1] == t[k];
    if Any(t) {
      var k :| 0 <= k < |t| && t[k] != 0;
      assert h[k + 1] != 0;
    }
  }

  /** Prefixing a non-zero component keeps every tuple. */
  lemma {:induction false} FilterAnyPrependNonZero(x: int, ts: seq<seq<int>>)
    requires x != 0
    ensures Filter(Any, Prepend(x, ts)) == Prepend(x, ts)
  {
    if ts != [] {
      var ps := Prepend(x, ts);
      assert Any(ps[0]) by { assert ps[0][0] == x; }
      assert ps[1..] == Prepend(x, ts[1..]);
      FilterAnyPrependNonZero(x, ts[1..]);
      assert Filter(Any, ps) == [ps[0]] + Filter(Any, ps[1..]);
      assert ps == [ps[0]] + ps[1..];
    }
  }

  /** Prefixing 0 keeps exactly the tuples that were kept. */
  lemma {:induction false} FilterAnyPrependZero(ts: seq<seq<int>>)
    ensures Filter(Any, Prepend(0, ts)) == Prepend(0, Filter(Any, ts))
  {
    if ts != [] {
      var h := [0] + ts[0];
      var ps := Prepend(0, ts);
      assert ps[0] == h;
      assert ps[1..] == Prepend(0, ts[1..]);
      FilterAnyPrependZero(ts[1..]);
      AnyCons(0, ts[0]);
      var head := if Any(ts[0]) then [ts[0]] else [];
      assert Filter(Any, ps) == (if Any(h) then [h] else []) + Filter(Any, ps[1..]);
      assert Filter(Any, ts) == head + Filter(Any, ts[1..]);
      PrependAppend(0, head, Filter(Any, ts[1..]));
      assert Prepend(0, head) == if Any(h) then [h] else [];
    }
  }

  /** Filtering one level of the product of `range(-1, 2)` only filters inside the block headed by 0. */
  lemma FilterAnySpreadSteps(rest: seq<seq<int>>)
    ensures Filter(Any, Spread([-1, 0, 1], rest)) == Prepend(-1, rest) + Prepend(0, Filter(Any, rest)) + Prepend(1, rest)
  {
    SpreadOfThree(rest);
    FilterAppend(Any, Prepend(-1, rest) + Prepend(0, rest), Prepend(1, rest));
    FilterAppend(Any, Prepend(-1, rest), Prepend(0, rest));
    FilterAnyPrependNonZero(-1, rest);
    FilterAnyPrependZero(rest);
    FilterAnyPrependNonZero(1, rest);
  }

  /** There are 3^d - 1 Moore offsets: every offset but the zero one. */
  lemma {:induction false} MooreOffsetsCount(dim: nat)
    ensures |MooreOffsets(dim)| + 1 == Pow(3, dim)
  {
    if dim == 0 {
      assert Product(Repeat([-1, 0, 1], 0)) == [[]];
      assert !Any([]);
      assert Filter(Any, [[]]) == [] + Filter(Any, []);
    } else {
      var rest := Product(Repeat([-1, 0, 1], dim - 1));
      assert Repeat([-1, 0, 1], dim)[1..] == Repeat([-1, 0, 1], dim - 1);
      assert Product(Repeat([-1, 0, 1], dim)) == Spread([-1, 0, 1], rest);
      FilterAnySpreadSteps(rest);
      MooreOffsetsCount(dim - 1);
      ProductLength(Repeat([-1, 0, 1], dim - 1));
      CardOfRepeat([-1, 0, 1], dim - 1);
      assert |rest| == Pow(3, dim - 1);
    }
  }

  // ---------------------------------------------------------------------------
  // Neighbourhoods of a point

  /** A step from `p` to `q` that moves by exactly one in every dimension. */
  predicate DiagonalStep(p: seq<int>, q: seq<int>)
  {
    |p| == |q| && forall k :: 0 <= k < |p| ==> q[k] - p[k] == 1 || q[k] - p[k] == -1
  }

  /** Points that agree in some dimension are not a diagonal step apart. */
  lemma SharedCoordinateNotDiagonal(p: seq<int>, q: seq<int>, k: nat)
    requires k < |p| && k < |q| && p[k] == q[k]
    ensures !DiagonalStep(p, q)
  {
  }

  /** A step from `p` to a different point `q` that moves by at most one in every dimension. */
  predicate MooreStep(p: seq<int>, q: seq<int>)
  {
    && |p| == |q|
    && (forall k :: 0 <= k < |p| ==> -1 <= q[k] - p[k] <= 1)
    && exists k :: 0 <= k < |p| && q[k] != p[k]
  }

  /** `point + t` on numpy arrays: componentwise sum. */
  function Add(p: seq<int>, t: seq<int>): (r: seq<int>)
    requires |t| == |p|
    ensures |r| == |p| && forall k :: 0 <= k < |p| ==> r[k] == p[k] + t[k]
  {
    seq(|p|, k requires 0 <= k < |p| => p[k] + t[k])
  }

  /** The sums `point + t` over `offs` that fall inside the array, in order. */
  function Shifted(shape: seq<nat>, point: seq<int>, offs: seq<seq<int>>): (r: seq<seq<int>>)
    requires |point| == |shape|
    requires forall t :: t in offs ==> |t| == |point|
    ensures |r| <= |offs|
    ensures forall nb :: nb in r ==> InBounds(nb, shape)
    ensures forall nb :: nb in r <==> InBounds(nb, shape) && exists t :: t in offs && nb == Add(point, t)
  {
    if offs == [] then []
    else
      var nb := Add(point, offs[0]);
      var rest := Shifted(shape, point, offs[1..]);
      assert forall t :: t in offs <==> t == offs[0] || t in offs[1..];
      (if InBounds(nb, shape) then [nb] else []) + rest
  }

  // ---------------------------------------------------------------------------
  // `nearby` as written

  /** The result of a numpy comparison: its value, or the error numpy raises on shapes that do not broadcast. */
  datatype Comparison = Compared(holds: bool) | ShapeMismatch

  /**
   * `np.all(x <= y)` for one-dimensional arrays: the shapes broadcast when the lengths agree
   * or one of them is 1, and numpy raises otherwise.
   */
  function AllAtMost(x: seq<int>, y: seq<int>): (r: Comparison)
    ensures r.ShapeMismatch? <==> |x| != |y| && |x| != 1 && |y| != 1
  {
    if |x| == |y| then Compared(forall k :: 0 <= k < |x| ==> x[k] <= y[k])
    else if |x| == 1 then Compared(forall k :: 0 <= k < |y| ==> x[0] <= y[k])
    else if |y| == 1 then Compared(forall k :: 0 <= k < |x| ==> x[k] <= y[0])
    else ShapeMismatch
  }

  /** What the generator produces: the points it yields, or the error it raises while yielding. */
  datatype Yielded = Yields(points: seq<seq<int>>) | BroadcastError

  /**
   * The loop of `nearby` over `offs`: `point + t` is yielded when it is at least `lower` and below
   * the shape. `nb < upper` always compares arrays of one length, so only `lower <= nb` can raise.
   */
  function YieldWithin(lower: seq<int>, shape: seq<nat>, point: seq<int>, offs: seq<seq<int>>): Yielded
    requires |point| == |shape|
    requires forall t :: t in offs ==> |t| == |point|
  {
    if offs == [] then Yields([])
    else
      var nb := Add(point, offs[0]);
      assert forall t :: t in offs[1..] ==> t in offs;
      match AllAtMost(lower, nb)
      case ShapeMismatch => BroadcastError
      case Compared(above) =>
        var rest := YieldWithin(lower, shape, point, offs[1..]);
        if rest.BroadcastError? then BroadcastError
        else Yields((if above && forall k :: 0 <= k < |nb| ==> nb[k] < shape[k] then [nb] else []) + rest.points)
  }

  /** `nearby(point)` as written, with `lower = np.array([0, 0, 0])`. */
  function NearbyAsWritten(shape: seq<nat>, point: seq<int>): Yielded
    requires |point| == |shape|
  {
    OffsetsShape(|shape|);
    YieldWithin([0, 0, 0], shape, point, Offsets(|shape|))
  }

  /** The in-bounds diagonal neighbours: what `nearby` yields when its lower bound compares. */
  function DiagonalNearby(shape: seq<nat>, point: seq<int>): (r: seq<seq<int>>)
    requires |point| == |shape|
    ensures |r| <= Pow(2, |shape|)
  {
    OffsetsShape(|shape|);
    Shifted(shape, point, Offsets(|shape|))
  }

  /** `[0, 0, 0] <= nb` compares componentwise against zero when `nb` has 1 or 3 components. */
  lemma {:induction false} YieldWithinOnRanks1And3(shape: seq<nat>, point: seq<int>, offs: seq<seq<int>>)
    requires |point| == |shape| && (|shape| == 1 || |shape| == 3)
    requires forall t :: t in offs ==> |t| == |point|
    ensures YieldWithin([0, 0, 0], shape, point, offs) == Yields(Shifted(shape, point, offs))
  {
    if offs != [] {
      var nb := Add(point, offs[0]);
      assert forall t :: t in offs[1..] ==> t in offs;
      YieldWithinOnRanks1And3(shape, point, offs[1..]);
      LowerBoundCompares(nb);
      var keep := InBounds(nb, shape);
      assert keep <==> (forall k :: 0 <= k < |nb| ==> 0 <= nb[k]) && (forall k :: 0 <= k < |nb| ==> nb[k] < shape[k]);
      assert Shifted(shape, point, offs) == (if keep then [nb] else []) + Shifted(shape, point, offs[1..]);
    }
  }

  /** `np.all([0, 0, 0] <= nb)` tests every component of `nb` against zero when it has 1 or 3 of them. */
  lemma LowerBoundCompares(nb: seq<int>)
    requires |nb| == 1 || |nb| == 3
    ensures AllAtMost([0, 0, 0], nb) == Compared(forall k :: 0 <= k < |nb| ==> 0 <= nb[k])
  {
    var zeros := [0, 0, 0];
    assert forall k :: 0 <= k < 3 ==> zeros[k] == 0;
    if |nb| == 3 {
      assert AllAtMost(zeros, nb) == Compared(forall k :: 0 <= k < 3 ==> zeros[k] <= nb[k]);
    } else {
      assert AllAtMost(zeros, nb) == Compared(forall k :: 0 <= k < 3 ==> zeros[k] <= nb[0]);
      assert (forall k :: 0 <= k < 3 ==> zeros[k] <= nb[0]) <==> 0 <= nb[0];
      assert (forall k :: 0 <= k < |nb| ==> 0 <= nb[k]) <==> 0 <= nb[0];
    }
  }

  /** For arrays of rank 1 or 3 `nearby` yields the in-bounds diagonal neighbours. */
  lemma NearbyAsWrittenOnRanks1And3(shape: seq<nat>, point: seq<int>)
    requires |point| == |shape| && (|shape| == 1 || |shape| == 3)
    ensures NearbyAsWritten(shape, point) == Yields(DiagonalNearby(shape, point))
  {
    OffsetsShape(|shape|);
    YieldWithinOnRanks1And3(shape, point, Offsets(|shape|));
  }

  /** For every other rank, a 2-D image among them, `nearby` raises before yielding anything. */
  lemma NearbyAsWrittenRaises(shape: seq<nat>, point: seq<int>)
    requires |point| == |shape| && |shape| != 1 && |shape| != 3
    ensures NearbyAsWritten(shape, point) == BroadcastError
  {
    OffsetsShape(|shape|);
    PowPositive(2, |shape|);
    var offs := Offsets(|shape|);
    assert AllAtMost([0, 0, 0], Add(point, offs[0])) == ShapeMismatch;
  }

  /** `nearby` yields exactly the in-bounds coordinates one diagonal step away, when it yields. */
  lemma DiagonalNearbyMembership(shape: seq<nat>, point: seq<int>, nb: seq<int>)
    requires |point| == |shape|
    ensures nb in DiagonalNearby(shape, point) <==> InBounds(nb, shape) && DiagonalStep(point, nb)
  {
    if InBounds(nb, shape) && DiagonalStep(point, nb) {
      DiagonalStepYielded(shape, point, nb);
    }
    if nb in DiagonalNearby(shape, point) {
      YieldedDiagonalStep(shape, point, nb);
    }
  }

  /** An in-bounds coordinate one diagonal step away is yielded. */
  lemma DiagonalStepYielded(shape: seq<nat>, point: seq<int>, nb: seq<int>)
    requires |point| == |shape| && InBounds(nb, shape) && DiagonalStep(point, nb)
    ensures nb in DiagonalNearby(shape, point)
  {
    var d := |shape|;
    var offs := Offsets(d);
    var t := seq(d, k requires 0 <= k < d => nb[k] - point[k]);
    assert forall k :: 0 <= k < d ==> t[k] == -1 || t[k] == 1;
    assert t in offs && forall u :: u in offs ==> |u| == d by { OffsetsShape(d); }
    assert nb == Add(point, t);
    assert DiagonalNearby(shape, point) == Shifted(shape, point, offs);
  }

  /** Whatever is yielded is in bounds and one diagonal step away. */
  lemma YieldedDiagonalStep(shape: seq<nat>, point: seq<int>, nb: seq<int>)
    requires |point| == |shape| && nb in DiagonalNearby(shape, point)
    ensures InBounds(nb, shape) && DiagonalStep(point, nb)
  {
    var d := |shape|;
    OffsetsShape(d);
    var t :| t in Offsets(d) && nb == Add(point, t);
    assert forall k :: 0 <= k < d ==> t[k] == -1 || t[k] == 1;
  }

  /** For a point of rank at least one, `nearby` never yields the point itself. */
  lemma DiagonalNearbyExcludesPoint(shape: seq<nat>, point: seq<int>)
    requires |point| == |shape| && |shape| > 0
    ensures point !in DiagonalNearby(shape, point)
  {
    DiagonalNearbyMembership(shape, point, point);
    SharedCoordinateNotDiagonal(point, point, 0);
  }

  /**
   * A touching cell that shares a coordinate with the point (in a 2 x 1 x 1 array, cell (1, 0, 0)
   * seen from (0, 0, 0)) is not yielded by `nearby` as written, but is by the intended neighbourhood.
   */
  lemma FaceNeighbourMissed(shape: seq<nat>, p: seq<int>, q: seq<int>, k: nat)
    requires InBounds(p, shape) && InBounds(q, shape) && MooreStep(p, q)
    requires k < |p| && p[k] == q[k]
    ensures q !in DiagonalNearby(shape, p)
    ensures q in MooreNearby(shape, p)
  {
    DiagonalNearbyMembership(shape, p, q);
    SharedCoordinateNotDiagonal(p, q, k);
    MooreNearbyMembership(shape, p, q);
  }

  // ---------------------------------------------------------------------------
  // `nearby` as intended

  /**
   * `nearby(point)` with `filter(any, ...)` and a lower bound of zero in every dimension:
   * the in-bounds coordinates `point + t` for the Moore offsets `t`, in generator order.
   */
  function MooreNearby(shape: seq<nat>, point: seq<int>): (r: seq<seq<int>>)
    requires |point| == |shape|
    ensures |r| < Pow(3, |shape|)
    ensures forall nb :: nb in r ==> InBounds(nb, shape)
  {
    MooreOffsetsCount(|shape|);
    MooreOffsetsRank(|shape|);
    Shifted(shape, point, MooreOffsets(|shape|))
  }

  /** `nearby` yields exactly the in-bounds coordinates that touch the point, the point excluded. */
  lemma MooreNearbyMembership(shape: seq<nat>, point: seq<int>, nb: seq<int>)
    requires |point| == |shape|
    ensures nb in MooreNearby(shape, point) <==> InBounds(nb, shape) && MooreStep(point, nb)
  {
    if InBounds(nb, shape) && MooreStep(point, nb) {
      MooreStepYielded(shape, point, nb);
    }
    if nb in MooreNearby(shape, point) {
      YieldedMooreStep(shape, point, nb);
    }
  }

  /** An in-bounds coordinate that touches the point is yielded. */
  lemma MooreStepYielded(shape: seq<nat>, point: seq<int>, nb: seq<int>)
    requires |point| == |shape| && InBounds(nb, shape) && MooreStep(point, nb)
    ensures nb in MooreNearby(shape, point)
  {
    var d := |shape|;
    var offs := MooreOffsets(d);
    var t := seq(d, k requires 0 <= k < d => nb[k] - point[k]);
    var j :| 0 <= j < d && nb[j] != point[j];
    assert t[j] != 0;
    assert t in offs by { MooreOffsetsMembership(d, t); }
    assert forall u :: u in offs ==> |u| == d by { MooreOffsetsRank(d); }
    assert nb == Add(point, t);
    assert MooreNearby(shape, point) == Shifted(shape, point, offs);
  }

  /** Whatever is yielded is in bounds and touches the point. */
  lemma YieldedMooreStep(shape: seq<nat>, point: seq<int>, nb: seq<int>)
    requires |point| == |shape| && nb in MooreNearby(shape, point)
    ensures InBounds(nb, shape) && MooreStep(point, nb)
  {
    var d := |shape|;
    MooreOffsetsRank(d);
    var t :| t in MooreOffsets(d) && |t| == d && nb == Add(point, t);
    MooreOffsetsMembership(d, t);
    var j :| 0 <= j < |t| && t[j] != 0;
    assert nb[j] != point[j];
  }

  /** A point is never its own neighbour. */
  lemma MooreNearbyExcludesPoint(shape: seq<nat>, point: seq<int>)
    requires |point| == |shape|
    ensures point !in MooreNearby(shape, point)
  {
    MooreNearbyMembership(shape, point, point);
  }

  /** In-bounds points are each other's neighbours or neither is. */
  lemma MooreNearbySymmetric(shape: seq<nat>, p: seq<int>, q: seq<int>)
    requires InBounds(p, shape) && InBounds(q, shape)
    ensures q in MooreNearby(shape, p) <==> p in MooreNearby(shape, q)
  {
    MooreNearbyMembership(shape, p, q);
    MooreNearbyMembership(shape, q, p);
  }

  // ---------------------------------------------------------------------------
  // Neighbourhoods on row-major positions, as the labeller consumes them

  /** Row-major positions of in-bounds coordinates, in order. */
  function Positions(shape: seq<nat>, cs: seq<seq<int>>): (r: seq<nat>)
    requires forall k {:trigger cs[k]} :: 0 <= k < |cs| ==> InBounds(cs[k], shape)
    ensures |r| == |cs|
    ensures forall k :: 0 <= k < |cs| ==> |cs[k]| == |shape| && r[k] < Size(shape) && r[k] == ToFlat(shape, cs[k])
  {
    if cs == [] then []
    else
      ToFlatInBounds(shape, cs[0]);
      [ToFlat(shape, cs[0])] + Positions(shape, cs[1..])
  }

  /** A position is listed exactly when it is a cell whose coordinate is listed. */
  lemma PositionsMembership(shape: seq<nat>, cs: seq<seq<int>>, j: nat)
    requires forall c :: c in cs ==> InBounds(c, shape)
    ensures j in Positions(shape, cs) <==> j < Size(shape) && ToCoord(shape, j) in cs
  {
    var r := Positions(shape, cs);
    if j in r {
      var k :| 0 <= k < |r| && r[k] == j;
      ToFlatInBounds(shape, cs[k]);
    }
    if j < Size(shape) && ToCoord(shape, j) in cs {
      var k :| 0 <= k < |cs| && cs[k] == ToCoord(shape, j);
      ToCoordToFlat(shape, j);
      assert r[k] == j;
    }
  }

  /** `nearby` on row-major positions: positions outside the array have no neighbours. */
  function FlatNearby(shape: seq<nat>, i: nat): (r: seq<nat>)
    ensures forall j :: j in r ==> j < Size(shape)
  {
    if i < Size(shape) then Positions(shape, MooreNearby(shape, ToCoord(shape, i))) else []
  }

  /** Position `j` is a neighbour of position `i` exactly when their coordinates are `nearby` each other. */
  lemma FlatNearbyMembership(shape: seq<nat>, i: nat, j: nat)
    ensures j in FlatNearby(shape, i) <==>
      i < Size(shape) && j < Size(shape) && ToCoord(shape, j) in MooreNearby(shape, ToCoord(shape, i))
  {
    if i < Size(shape) {
      PositionsMembership(shape, MooreNearby(shape, ToCoord(shape, i)), j);
    }
  }

  /** The flat intended neighbourhood is symmetric. */
  lemma FlatNearbySymmetric(shape: seq<nat>, i: nat, j: nat)
    ensures j in FlatNearby(shape, i) <==> i in FlatNearby(shape, j)
  {
    FlatNearbyMembership(shape, i, j);
    FlatNearbyMembership(shape, j, i);
    if i < Size(shape) && j < Size(shape) {
      MooreNearbySymmetric(shape, ToCoord(shape, i), ToCoord(shape, j));
    }
  }

  /** `nearby` as written on row-major positions: the diagonal neighbours. */
  function FlatDiagonalNearby(shape: seq<nat>, i: nat): (r: seq<nat>)
    ensures forall j :: j in r ==> j < Size(shape)
  {
    if i < Size(shape) then Positions(shape, DiagonalNearby(shape, ToCoord(shape, i))) else []
  }

  /** Position `j` is a diagonal neighbour of position `i` exactly when their coordinates are. */
  lemma FlatDiagonalNearbyMembership(shape: seq<nat>, i: nat, j: nat)
    ensures j in FlatDiagonalNearby(shape, i) <==>
      i < Size(shape) && j < Size(shape) && DiagonalStep(ToCoord(shape, i), ToCoord(shape, j))
  {
    if i < Size(shape) {
      var p := ToCoord(shape, i);
      PositionsMembership(shape, DiagonalNearby(shape, p), j);
      if j < Size(shape) {
        DiagonalNearbyMembership(shape, p, ToCoord(shape, j));
      }
    }
  }

  /** The flat diagonal neighbourhood is symmetric. */
  lemma FlatDiagonalNearbySymmetric(shape: seq<nat>, i: nat, j: nat)
    ensures j in FlatDiagonalNearby(shape, i) <==> i in FlatDiagonalNearby(shape, j)
  {
    FlatDiagonalNearbyMembership(shape, i, j);
    FlatDiagonalNearbyMembership(shape, j, i);
    if i < Size(shape) && j < Size(shape) {
      var p, q := ToCoord(shape, i), ToCoord(shape, j);
      if DiagonalStep(p, q) {
        assert forall k :: 0 <= k < |p| ==> p[k] - q[k] == -(q[k] - p[k]);
      }
      if DiagonalStep(q, p) {
        assert forall k :: 0 <= k < |p| ==> q[k] - p[k] == -(p[k] - q[k]);
      }
    }
  }
}
