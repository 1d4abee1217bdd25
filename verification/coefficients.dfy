/**
 The coefficient table of the vectorised hash: descending powers of 31
 modulo 2^32 for the 32 byte positions of one block, sliced into four
 8-lane vectors, plus the carry multipliers 31^8, 31^16 and 31^32.

 Both `HashCode` and `MemorySegmentState` build this table in their static
 initialisers with the same code; it is modelled once here.
 */
module Coefficients {
  import opened Int32
  import opened RollingHash
  import opened Lanes

  /** The static constants of the initialiser. */
  datatype Table = Table(
    coeff31To8: JInt,
    coeff31To16: JInt,
    coeff31To32: JInt,
    hCoeff31To8: Vec,
    hCoeff31To16: Vec,
    hCoeff31To32: Vec,
    hCoeff8: Vec,
    hCoeff16: Vec,
    hCoeff24: Vec,
    hCoeff32: Vec)

  /** Lane `l` holds `31^(e + 7 - l)` modulo 2^32: the weights of eight
      consecutive bytes that are followed by `e` more in their block. */
  function Weights(e: nat): Vec
  {
    var row := PowRow(e, LANES);
    seq(LANES, l requires 0 <= l < LANES => Wrap(row[l]))
  }

  /** The table as its closed form, which the kernels read. */
  function Coeffs(): Table
  {
    Table(
      Wrap(Pow31(8)), Wrap(Pow31(16)), Wrap(Pow31(32)),
      Broadcast(Wrap(Pow31(8))), Broadcast(Wrap(Pow31(16))), Broadcast(Wrap(Pow31(32))),
      Weights(0), Weights(8), Weights(16), Weights(24))
  }

  /** The static initialiser. `x` is its local array of 32 powers,
      returned so that its contents can be stated; `t` holds the
      constants it publishes. */
  method Initialise() returns (x: seq<JInt>, t: Table)
    ensures |x| == 32 && x[31] == 1
    ensures forall k :: 0 <= k < 32 ==> x[k] == Wrap(Pow31(31 - k))
    ensures t.coeff31To8 == Wrap(Pow31(8))
    ensures t.coeff31To16 == Wrap(Pow31(16))
    ensures t.coeff31To32 == Wrap(Pow31(32))
    ensures forall l :: 0 <= l < LANES ==>
      && t.hCoeff32[l] == Wrap(Pow31(31 - l))
      && t.hCoeff24[l] == Wrap(Pow31(23 - l))
      && t.hCoeff16[l] == Wrap(Pow31(15 - l))
      && t.hCoeff8[l] == Wrap(Pow31(7 - l))
    ensures forall l :: 0 <= l < LANES ==>
      && t.hCoeff31To8[l] == t.coeff31To8
      && t.hCoeff31To16[l] == t.coeff31To16
      && t.hCoeff31To32[l] == t.coeff31To32
    ensures t == Coeffs()
  {
    x := Powers();
    t := TableOf(x);
    TableOfPowers(x);
    CoeffsLanes();
  }

  /** The constants the initialiser derives from its array `x`: the carry
      multipliers `x[24] * 31`, `x[16] * 31` and `x[0] * 31`, their
      broadcasts, and the vectors read from `x` at offsets 24, 16, 8 and 0. */
  function TableOf(x: seq<JInt>): Table
    requires |x| == 4 * LANES
  {
    var c8, c16, c32 := Mul(x[24], 31), Mul(x[16], 31), Mul(x[0], 31);
    Table(c8, c16, c32, Broadcast(c8), Broadcast(c16), Broadcast(c32),
          x[24..32], x[16..24], x[8..16], x[0..8])
  }

  /** Derived from the array of powers, the constants are the closed form. */
  lemma TableOfPowers(x: seq<JInt>)
    requires |x| == 4 * LANES
    requires forall k :: 0 <= k < 32 ==> x[k] == Wrap(Pow31(31 - k))
    ensures TableOf(x) == Coeffs()
  {
    assert Mul(x[24], 31) == Wrap(Pow31(8)) by { NextPower(7); }
    assert Mul(x[16], 31) == Wrap(Pow31(16)) by { NextPower(15); }
    assert Mul(x[0], 31) == Wrap(Pow31(32)) by { NextPower(31); }
    SliceIsWeights(x, 0);
    SliceIsWeights(x, 8);
    SliceIsWeights(x, 16);
    SliceIsWeights(x, 24);
  }

  /** The initialiser's loop over its local array `x`: the last entry is
      1 and every other entry is 31 times the entry after it. */
  method Powers() returns (x: seq<JInt>)
    ensures |x| == 4 * LANES && x[31] == 1
    ensures forall k :: 0 <= k < 32 ==> x[k] == Wrap(Pow31(31 - k))
  {
    var a := new JInt[4 * LANES];
    a[a.Length - 1] := 1;
    var i := 1;
    while i < a.Length
      invariant 1 <= i <= a.Length
      invariant forall k :: a.Length - i <= k < a.Length ==> a[k] == Wrap(Pow31(31 - k))
    {
      NextPower(i - 1);
      a[a.Length - 1 - i] := Mul(a[a.Length - 1 - i + 1], 31);
      i := i + 1;
    }
    x := a[..];
  }

  /** Lane `l` of each coefficient vector of the closed form. */
  lemma CoeffsLanes()
    ensures forall l :: 0 <= l < LANES ==>
      && Coeffs().hCoeff32[l] == Wrap(Pow31(31 - l))
      && Coeffs().hCoeff24[l] == Wrap(Pow31(23 - l))
      && Coeffs().hCoeff16[l] == Wrap(Pow31(15 - l))
      && Coeffs().hCoeff8[l] == Wrap(Pow31(7 - l))
  {
  }

  /** Every lane of the carry vector is 31^32 modulo 2^32. */
  lemma CarryLanes()
    ensures forall l :: 0 <= l < LANES ==> Coeffs().hCoeff31To32[l] == Wrap(Pow31(32))
  {
  }

  /** Lane `l` of `Weights(e)` is the narrowed lane `l` of `PowRow(e, 8)`. */
  lemma WeightsLanes(e: nat)
    ensures forall l :: 0 <= l < LANES ==> Weights(e)[l] == Wrap(PowRow(e, LANES)[l])
  {
  }

  /** One step of the initialiser's loop: `31^k * 31` modulo 2^32. */
  lemma NextPower(k: nat)
    ensures Mul(Wrap(Pow31(k)), 31) == Wrap(Pow31(k + 1))
  {
    WrapMul(Pow31(k), 31);
  }

  /** The eight entries of the powers array that `IntVector.fromArray`
      reads at offset `24 - e` are `Weights(e)`. */
  lemma SliceIsWeights(x: seq<JInt>, e: nat)
    requires |x| == 32 && e <= 24
    requires forall k :: 0 <= k < 32 ==> x[k] == Wrap(Pow31(31 - k))
    ensures x[24 - e..32 - e] == Weights(e)
  {
    var w := Weights(e);
    forall l | 0 <= l < LANES
      ensures x[24 - e..32 - e][l] == w[l]
    {
      assert PowRow(e, LANES)[l] == Pow31(31 - (24 - e + l));
    }
  }
}
