/**
 The slice of the Vector API the kernels use, with 256-bit integer vectors
 (`IntVector.SPECIES_256`) as sequences of eight Java `int` lanes.

 Lane-wise `mul` and `add` wrap in every lane; `reduceLanes(ADD)` sums the
 lanes with wrap-around; an 8-byte load (`ByteVector.SPECIES_64`) followed
 by `castShape` to the 8-lane int shape widens each byte, sign-extending.
 */
module Lanes {
  import opened Int32
  import opened RollingHash

  /** Lanes of an `IntVector` of species `SPECIES_256`. */
  const LANES: nat := 8

  type Vec = v: seq<JInt> | |v| == LANES witness [0, 0, 0, 0, 0, 0, 0, 0]

  /** `IntVector.zero(INT_256_SPECIES)`. */
  function Zero(): Vec
  {
    seq(LANES, _ => 0)
  }

  /** `IntVector.broadcast(INT_256_SPECIES, c)`. */
  function Broadcast(c: JInt): Vec
  {
    seq(LANES, _ => c)
  }

  /** `a.mul(b)`. */
  function LaneMul(a: Vec, b: Vec): Vec
  {
    seq(LANES, l requires 0 <= l < LANES => Mul(a[l], b[l]))
  }

  /** `a.add(b)`. */
  function LaneAdd(a: Vec, b: Vec): Vec
  {
    seq(LANES, l requires 0 <= l < LANES => Add(a[l], b[l]))
  }

  /** `ByteVector.fromArray(BYTE_64_SPECIES, src, off)` (or the equivalent
      `fromMemorySegment`), then `castShape(INT_256_SPECIES, 0)`: the eight
      bytes at `off`, in address order, each widened to an `int` lane.
      The load has to lie inside the source. */
  function Load(src: seq<JByte>, off: int): Vec
    requires 0 <= off && off + LANES <= |src|
  {
    var bytes := src[off..off + LANES];
    seq(LANES, l requires 0 <= l < LANES => Widen(bytes[l]))
  }

  /** The exact sum of a sequence of integers. */
  function Sum(v: seq<int>): int
  {
    if |v| == 0 then 0 else Sum(v[..|v| - 1]) + v[|v| - 1]
  }

  /** `v.reduceLanes(VectorOperators.ADD)`: lanes added in order, each
      addition wrapping. */
  function ReduceLanes(v: seq<JInt>): JInt
  {
    if |v| == 0 then 0 else Add(ReduceLanes(v[..|v| - 1]), v[|v| - 1])
  }

  /** The left-to-right wrap-around reduction is the exact lane sum
      narrowed once to 32 bits. */
  lemma {:induction false} ReduceLanesIsSum(v: seq<JInt>)
    ensures ReduceLanes(v) == Wrap(Sum(v))
    decreases |v|
  {
    if |v| > 0 {
      var p := v[..|v| - 1];
      ReduceLanesIsSum(p);
      WrapAdd(Sum(p), v[|v| - 1]);
      WrapOfInRange(v[|v| - 1]);
    }
  }

  /** A sequence that is zero everywhere except at `j` sums to `v[j]`. */
  lemma {:induction false} SumOfSingleton(v: seq<int>, j: nat)
    requires j < |v|
    requires forall l :: 0 <= l < |v| && l != j ==> v[l] == 0
    ensures Sum(v) == v[j]
    decreases |v|
  {
    if j < |v| - 1 {
      SumOfSingleton(v[..|v| - 1], j);
    } else if |v| > 1 {
      SumOfSingleton(v[..|v| - 1], 0);
    }
  }

  /** Sums of lane-wise congruent sequences are congruent. */
  lemma {:induction false} SumCong(a: seq<int>, b: seq<int>)
    requires |a| == |b|
    requires forall l :: 0 <= l < |a| ==> Cong(a[l], b[l])
    ensures Cong(Sum(a), Sum(b))
    decreases |a|
  {
    if |a| > 0 {
      var n := |a|;
      SumCong(a[..n - 1], b[..n - 1]);
      CongAdd(Sum(a[..n - 1]), Sum(b[..n - 1]), a[n - 1], b[n - 1]);
    }
  }

  /** Summing `h[l] * p + x[l] * c[l]` over all lanes. */
  lemma {:induction false} SumLinear(r: seq<int>, h: seq<int>, p: int, x: seq<int>, c: seq<int>)
    requires |r| == |h| == |x| == |c|
    requires forall l :: 0 <= l < |r| ==> r[l] == h[l] * p + x[l] * c[l]
    ensures Sum(r) == p * Sum(h) + Dot(x, c)
    decreases |r|
  {
    if |r| > 0 {
      var n := |r|;
      SumLinear(r[..n - 1], h[..n - 1], p, x[..n - 1], c[..n - 1]);
    }
  }

  /** One accumulator update `h.mul(carry).add(x.mul(coeff))` where every
      lane of `carry` is `p` and lane `l` of `coeff` is `c[l]`, both modulo
      2^32: the lane sum moves from `S` to `p * S + Dot(x, c)`. */
  lemma UpdateSum(h: Vec, x: Vec, carry: Vec, coeff: Vec, p: int, c: seq<int>, r: int)
    requires |c| == LANES
    requires forall l :: 0 <= l < LANES ==> carry[l] == Wrap(p)
    requires forall l :: 0 <= l < LANES ==> coeff[l] == Wrap(c[l])
    requires r == p * Sum(h) + Dot(x, c)
    ensures Cong(Sum(LaneAdd(LaneMul(h, carry), LaneMul(x, coeff))), r)
  {
    var u := LaneAdd(LaneMul(h, carry), LaneMul(x, coeff));
    var v := seq(LANES, l requires 0 <= l < LANES => h[l] * p + x[l] * c[l]);
    forall l | 0 <= l < LANES
      ensures Cong(u[l], v[l])
    {
      WrapMul(h[l], p);
      WrapMul(x[l], c[l]);
      WrapOfInRange(h[l]);
      WrapOfInRange(x[l]);
      WrapAdd(h[l] * p, x[l] * c[l]);
      WrapOfInRange(u[l]);
    }
    SumCong(u, v);
    SumLinear(v, h, p, x, c);
  }
}
