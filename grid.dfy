/**
 * Shapes, coordinates and index enumeration for dense n-dimensional grids.
 *
 * A grid of shape `[s0, s1, ..., s(d-1)]` holds `s0 * s1 * ... * s(d-1)` cells.
 * The labeller keeps the cells in one flat array in row-major order (first
 * dimension slowest), which is the order in which `itertools.product` over
 * `range(s0), ..., range(s(d-1))` enumerates the coordinates.
 */
module Grid {

  /** Number of cells of a grid of the given shape. */
  function Size(shape: seq<nat>): nat
  {
    if |shape| == 0 then 1 else shape[0] * Size(shape[1..])
  }

  /** `0 <= c[k] < shape[k]` in every dimension. */
  predicate InBounds(c: seq<int>, shape: seq<nat>)
  {
    |c| == |shape| && forall k :: 0 <= k < |c| ==> 0 <= c[k] < shape[k]
  }

  /** Row-major position of coordinate `c`. */
  function ToFlat(shape: seq<nat>, c: seq<int>): int
    requires |c| == |shape|
  {
    if |shape| == 0 then 0 else c[0] * Size(shape[1..]) + ToFlat(shape[1..], c[1..])
  }

  /** Coordinate of row-major position `i`. */
  function ToCoord(shape: seq<nat>, i: nat): (c: seq<int>)
    requires i < Size(shape)
    ensures InBounds(c, shape)
  {
    if |shape| == 0 then []
    else
      var inner := Size(shape[1..]);
      assert inner != 0 by { assert Size(shape) == shape[0] * inner; }
      QuotientBelow(i, inner, shape[0]);
      var tail := ToCoord(shape[1..], i % inner);
      var c := [i / inner] + tail;
      assert 0 <= c[0] < shape[0];
      assert forall k :: 1 <= k < |c| ==> c[k] == tail[k - 1] && shape[k] == shape[1..][k - 1];
      c
  }

  /** `a * d >= d` for positive `a` and `d`. */
  lemma MulAtLeast(a: int, d: int)
    requires a >= 1 && d > 0
    ensures a * d >= d
  {
    assert a * d == d + (a - 1) * d;
    assert (a - 1) * d >= 0;
  }

  /** Quotient and remainder of `q * d + r` when `0 <= r < d`. */
  lemma DivModOf(q: int, r: int, d: int)
    requires d > 0 && 0 <= r < d
    ensures (q * d + r) / d == q && (q * d + r) % d == r
  {
    var x := q * d + r;
    var q', r' := x / d, x % d;
    assert x == q' * d + r';
    assert (q' - q) * d == r - r';
    if q' > q {
      MulAtLeast(q' - q, d);
    } else if q' < q {
      MulAtLeast(q - q', d);
    }
  }

  /** A position below `s0 * d` lies in one of the first `s0` blocks of length `d`. */
  lemma QuotientBelow(i: nat, d: nat, s0: nat)
    requires d > 0 && i < s0 * d
    ensures 0 <= i / d < s0
  {
    var q := i / d;
    assert q * d <= i;
    if q >= s0 {
      MulMonotone(s0, q, d);
    }
  }

  /** Multiplication by a non-negative factor keeps order. */
  lemma MulMonotone(a: int, b: int, d: int)
    requires a <= b && d >= 0
    ensures a * d <= b * d
  {
    assert b * d == a * d + (b - a) * d;
    assert (b - a) * d >= 0;
  }

  /** Converting a position to a coordinate and back gives the position again. */
  lemma {:induction false} ToCoordToFlat(shape: seq<nat>, i: nat)
    requires i < Size(shape)
    ensures ToFlat(shape, ToCoord(shape, i)) == i
  {
    if |shape| > 0 {
      var inner := InnerSize(shape);
      var tail := ToCoord(shape[1..], i % inner);
      ToCoordToFlat(shape[1..], i % inner);
      FlatOfCons(shape, i / inner, tail);
      DivModParts(i, inner);
    }
  }

  /** The size of a grid's trailing dimensions, positive when the grid has a cell. */
  lemma InnerSize(shape: seq<nat>) returns (inner: nat)
    requires |shape| > 0 && Size(shape) > 0
    ensures inner == Size(shape[1..]) && inner > 0
    ensures Size(shape) == shape[0] * inner
  {
    inner := Size(shape[1..]);
  }

  /** `i` is its quotient times `d` plus its remainder. */
  lemma DivModParts(i: int, d: int)
    requires d > 0
    ensures i == (i / d) * d + i % d
  {
  }

  /** Unfolds `ToFlat` once. */
  lemma FlatOfCons(shape: seq<nat>, x: int, tail: seq<int>)
    requires |shape| > 0 && |tail| == |shape| - 1
    ensures ToFlat(shape, [x] + tail) == x * Size(shape[1..]) + ToFlat(shape[1..], tail)
  {
    assert ([x] + tail)[1..] == tail;
  }

  /** Every in-bounds coordinate has a position below the grid's size, from which it is recovered. */
  lemma {:induction false} ToFlatInBounds(shape: seq<nat>, c: seq<int>)
    requires InBounds(c, shape)
    ensures 0 <= ToFlat(shape, c) < Size(shape)
    ensures ToCoord(shape, ToFlat(shape, c)) == c
  {
    if |shape| > 0 {
      var inner := Size(shape[1..]);
      assert InBounds(c[1..], shape[1..]) by {
        forall k | 0 <= k < |c| - 1
          ensures 0 <= c[1..][k] < shape[1..][k]
        {
          assert c[1..][k] == c[k + 1];
        }
      }
      ToFlatInBounds(shape[1..], c[1..]);
      var r := ToFlat(shape[1..], c[1..]);
      BlockBounds(c[0], r, inner, shape[0]);
      DivModOf(c[0], r, inner);
      assert ToCoord(shape, ToFlat(shape, c)) == [c[0]] + c[1..];
    }
  }

  /** Offset `r` inside block `q` of length `d` lies below `s0` blocks when `q < s0`. */
  lemma BlockBounds(q: int, r: int, d: int, s0: int)
    requires 0 <= q < s0 && 0 <= r < d
    ensures 0 <= q * d + r < s0 * d
  {
    MulMonotone(q + 1, s0, d);
    assert (q + 1) * d == q * d + d;
    assert 0 <= q * d;
  }

  /** Two in-bounds coordinates share a position only if they are equal. */
  lemma ToFlatInjective(shape: seq<nat>, c: seq<int>, c': seq<int>)
    requires InBounds(c, shape) && InBounds(c', shape)
    requires ToFlat(shape, c) == ToFlat(shape, c')
    ensures c == c'
  {
    ToFlatInBounds(shape, c);
    ToFlatInBounds(shape, c');
  }

  // ---------------------------------------------------------------------------
  // Cartesian products, as itertools.product builds them

  /** `range(n)`. */
  function Range(n: nat): (r: seq<int>)
    ensures |r| == n && forall k :: 0 <= k < n ==> r[k] == k
  {
    seq(n, k => k)
  }

  /** One `range` per dimension of the shape. */
  function Ranges(shape: seq<nat>): (rs: seq<seq<int>>)
    ensures |rs| == |shape| && forall k :: 0 <= k < |shape| ==> rs[k] == Range(shape[k])
  {
    seq(|shape|, k requires 0 <= k < |shape| => Range(shape[k]))
  }

  /** `[x] + t` for every tuple `t` of `ts`, in order. */
  function Prepend(x: int, ts: seq<seq<int>>): (r: seq<seq<int>>)
    ensures |r| == |ts| && forall k :: 0 <= k < |ts| ==> r[k] == [x] + ts[k]
  {
    seq(|ts|, k requires 0 <= k < |ts| => [x] + ts[k])
  }

  /** Every `x` of `xs` (slowest) paired with every tuple of `ts` (fastest). */
  function Spread(xs: seq<int>, ts: seq<seq<int>>): seq<seq<int>>
  {
    if xs == [] then [] else Prepend(xs[0], ts) + Spread(xs[1..], ts)
  }

  /** `itertools.product(*rs)`: the first iterable varies slowest. */
  function Product(rs: seq<seq<int>>): seq<seq<int>>
    decreases |rs|
  {
    if |rs| == 0 then [[]] else Spread(rs[0], Product(rs[1..]))
  }

  /** The product of the lengths of the iterables. */
  function Card(rs: seq<seq<int>>): nat
  {
    if |rs| == 0 then 1 else |rs[0]| * Card(rs[1..])
  }

  /** The coordinates the scan visits: `itertools.product(*map(range, shape))`. */
  function Indices(shape: seq<nat>): seq<seq<int>>
  {
    Product(Ranges(shape))
  }

  lemma {:induction false} SpreadLength(xs: seq<int>, ts: seq<seq<int>>)
    ensures |Spread(xs, ts)| == |xs| * |ts|
  {
    if xs != [] {
      SpreadLength(xs[1..], ts);
      assert |xs| * |ts| == |ts| + (|xs| - 1) * |ts|;
    }
  }

  /** A tuple is in `Spread(xs, ts)` exactly when it is some `x` of `xs` followed by some tuple of `ts`. */
  lemma {:induction false} SpreadMembership(xs: seq<int>, ts: seq<seq<int>>, t: seq<int>)
    ensures t in Spread(xs, ts) <==> |t| > 0 && t[0] in xs && t[1..] in ts
  {
    if xs != [] {
      SpreadMembership(xs[1..], ts, t);
      if |t| > 0 && t[0] == xs[0] && t[1..] in ts {
        var k :| 0 <= k < |ts| && ts[k] == t[1..];
        assert t == [t[0]] + t[1..];
        assert Prepend(xs[0], ts)[k] == t;
      }
      if t in Prepend(xs[0], ts) {
        var k :| 0 <= k < |ts| && Prepend(xs[0], ts)[k] == t;
        assert t[1..] == ts[k];
      }
    }
  }

  /** The k-th tuple of `Spread(xs, ts)`: block `k / |ts|`, offset `k % |ts|`. */
  lemma {:induction false} SpreadAt(xs: seq<int>, ts: seq<seq<int>>, k: nat)
    requires k < |xs| * |ts|
    ensures |ts| > 0 && k / |ts| < |xs|
    ensures k < |Spread(xs, ts)| && Spread(xs, ts)[k] == [xs[k / |ts|]] + ts[k % |ts|]
  {
    SpreadLength(xs, ts);
    var n := |ts|;
    assert n != 0;
    QuotientBelow(k, n, |xs|);
    if k < n {
      DivModOf(0, k, n);
    } else {
      NextBlock(k, n, |xs|);
      SpreadAt(xs[1..], ts, k - n);
      assert Spread(xs, ts)[k] == Spread(xs[1..], ts)[k - n];
    }
  }

  /** Dropping the first block of length `d` moves a position back by one block. */
  lemma NextBlock(k: nat, d: nat, m: nat)
    requires 0 < d <= k < m * d
    ensures k - d < (m - 1) * d
    ensures k / d == (k - d) / d + 1 && k % d == (k - d) % d
  {
    assert m * d == d + (m - 1) * d;
    var q, r := (k - d) / d, (k - d) % d;
    DivModParts(k - d, d);
    assert k == (q + 1) * d + r;
    DivModOf(q + 1, r, d);
  }

  /** `itertools.product` yields as many tuples as the product of the iterables' lengths. */
  lemma {:induction false} ProductLength(rs: seq<seq<int>>)
    ensures |Product(rs)| == Card(rs)
    decreases |rs|
  {
    if |rs| > 0 {
      ProductLength(rs[1..]);
      SpreadLength(rs[0], Product(rs[1..]));
    }
  }

  /** A tuple is produced exactly when it has one component per iterable, each drawn from its iterable. */
  lemma {:induction false} ProductMembership(rs: seq<seq<int>>, t: seq<int>)
    ensures t in Product(rs) <==> |t| == |rs| && forall k :: 0 <= k < |t| ==> t[k] in rs[k]
    decreases |rs|
  {
    if |rs| > 0 {
      SpreadMembership(rs[0], Product(rs[1..]), t);
      if |t| > 0 {
        ProductMembership(rs[1..], t[1..]);
        if |t| == |rs| && forall k :: 0 <= k < |t| ==> t[k] in rs[k] {
          forall k | 0 <= k < |t| - 1
            ensures t[1..][k] in rs[1..][k]
          {
            assert t[1..][k] == t[k + 1];
          }
        }
        if t in Product(rs) {
          forall k | 0 <= k < |t|
            ensures t[k] in rs[k]
          {
            if k > 0 { assert t[k] == t[1..][k - 1]; }
          }
        }
      }
    } else {
      if |t| == 0 { assert t == []; }
    }
  }

  lemma {:induction false} CardOfRanges(shape: seq<nat>)
    ensures Card(Ranges(shape)) == Size(shape)
  {
    if |shape| > 0 {
      CardOfRanges(shape[1..]);
      assert Ranges(shape)[1..] == Ranges(shape[1..]);
    }
  }

  /**
   * The scan visits Size(shape) coordinates and the k-th of them is the coordinate of
   * row-major position k; so scanning flat positions 0, 1, ... visits the same cells
   * in the same order.
   */
  lemma {:induction false} IndicesRowMajor(shape: seq<nat>, k: nat)
    requires k < Size(shape)
    ensures |Indices(shape)| == Size(shape)
    ensures Indices(shape)[k] == ToCoord(shape, k)
  {
    ProductLength(Ranges(shape));
    CardOfRanges(shape);
    if |shape| > 0 {
      var rs := Ranges(shape);
      var tails := Product(rs[1..]);
      var inner := Size(shape[1..]);
      assert rs[1..] == Ranges(shape[1..]);
      ProductLength(rs[1..]);
      CardOfRanges(shape[1..]);
      assert |tails| == inner;
      assert k < |rs[0]| * |tails|;
      SpreadAt(rs[0], tails, k);
      IndicesRowMajor(shape[1..], k % inner);
    }
  }
}
