/**
 * Dense four-axis tensors as nested sequences together with their extents, so
 * that a tensor with an empty leading axis still knows its other extents.
 */
module Tensors {

  datatype Tensor4<T> = Tensor4(d0: nat, d1: nat, d2: nat, d3: nat, data: seq<seq<seq<seq<T>>>>)
  {
    /** The nested sequences are rectangular with the recorded extents. */
    predicate Valid() {
      && |data| == d0
      && (forall a :: 0 <= a < d0 ==> |data[a]| == d1)
      && (forall a, b :: 0 <= a < d0 && 0 <= b < d1 ==> |data[a][b]| == d2)
      && (forall a, b, c :: 0 <= a < d0 && 0 <= b < d1 && 0 <= c < d2 ==> |data[a][b][c]| == d3)
    }

    predicate InRange(i0: int, i1: int, i2: int, i3: int) {
      0 <= i0 < d0 && 0 <= i1 < d1 && 0 <= i2 < d2 && 0 <= i3 < d3
    }

    function At(i0: int, i1: int, i2: int, i3: int): T
      requires Valid() && InRange(i0, i1, i2, i3)
    {
      data[i0][i1][i2][i3]
    }
  }

  /** The innermost axis of `Build` at the fixed outer index (a, b, c). */
  function BuildAxis3<T>(a: nat, b: nat, c: nat, d3: nat, f: (nat, nat, nat, nat) --> T): (r: seq<T>)
    requires forall e :: 0 <= e < d3 ==> f.requires(a, b, c, e)
    ensures |r| == d3 && forall e :: 0 <= e < d3 ==> r[e] == f(a, b, c, e)
  {
    seq(d3, e requires 0 <= e < d3 => f(a, b, c, e))
  }

  function BuildAxis2<T>(a: nat, b: nat, d2: nat, d3: nat, f: (nat, nat, nat, nat) --> T): (r: seq<seq<T>>)
    requires forall c, e :: 0 <= c < d2 && 0 <= e < d3 ==> f.requires(a, b, c, e)
    ensures |r| == d2
    ensures forall c :: 0 <= c < d2 ==> r[c] == BuildAxis3(a, b, c, d3, f)
  {
    seq(d2, c requires 0 <= c < d2 => BuildAxis3(a, b, c, d3, f))
  }

  function BuildAxis1<T>(a: nat, d1: nat, d2: nat, d3: nat, f: (nat, nat, nat, nat) --> T): (r: seq<seq<seq<T>>>)
    requires forall b, c, e :: 0 <= b < d1 && 0 <= c < d2 && 0 <= e < d3 ==> f.requires(a, b, c, e)
    ensures |r| == d1
    ensures forall b :: 0 <= b < d1 ==> r[b] == BuildAxis2(a, b, d2, d3, f)
  {
    seq(d1, b requires 0 <= b < d1 => BuildAxis2(a, b, d2, d3, f))
  }

  /**
   * Builds the tensor of extents (d0, d1, d2, d3) whose entry at every index is
   * `f` of that index.
   */
  function Build<T>(d0: nat, d1: nat, d2: nat, d3: nat, f: (nat, nat, nat, nat) --> T): (t: Tensor4<T>)
    requires forall a, b, c, e :: 0 <= a < d0 && 0 <= b < d1 && 0 <= c < d2 && 0 <= e < d3 ==> f.requires(a, b, c, e)
    ensures t.Valid() && t.d0 == d0 && t.d1 == d1 && t.d2 == d2 && t.d3 == d3
    ensures forall a, b, c, e :: t.InRange(a, b, c, e) ==> t.At(a, b, c, e) == f(a, b, c, e)
  {
    Tensor4(d0, d1, d2, d3, seq(d0, a requires 0 <= a < d0 => BuildAxis1(a, d1, d2, d3, f)))
  }
}
