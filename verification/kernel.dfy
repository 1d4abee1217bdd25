/**
 The lane-parallel kernel shared by the three vectorised hashers: four
 8-lane accumulators consume 32-byte blocks, are summed across all lanes,
 and the bytes after the last whole block are folded in one at a time.

 The central fact is `BlockPreservesHash`: if the lane sum of the
 accumulators is the reference hash of the bytes before a block, it is the
 reference hash of the bytes up to the end of that block after the block
 has been folded in.
 */
module Kernel {
  import opened Int32
  import opened RollingHash
  import opened Lanes
  import opened Coefficients

  /** Bytes per block (`ByteVector.SPECIES_256`). */
  const BLOCK: nat := 32

  /** The four accumulators `h1..h4`. */
  datatype Accumulators = Accumulators(h1: Vec, h2: Vec, h3: Vec, h4: Vec)

  /** `h1 = [1, 0, 0, 0, 0, 0, 0, 0]`, `h2 = h3 = h4 = 0`. */
  function Initial(): Accumulators
  {
    Accumulators([1, 0, 0, 0, 0, 0, 0, 0], Zero(), Zero(), Zero())
  }

  /** `length & ~(BLOCK - 1)` for a non-negative length: the length rounded
      down to whole blocks. */
  function BlockBound(n: nat): nat
  {
    n - n % BLOCK
  }

  /** The bound is a whole number of blocks and does not exceed `n`. */
  lemma WholeBlocks(n: nat)
    ensures BlockBound(n) == BLOCK * (n / BLOCK) <= n
  {
  }

  /** A block that starts at a whole-block offset below the bound ends at
      or before the bound. */
  lemma NextBlockFits(n: nat, blocks: nat)
    requires BLOCK * blocks < BlockBound(n)
    ensures BLOCK * (blocks + 1) <= BlockBound(n) <= n
  {
    WholeBlocks(n);
  }

  /** One update `h.mul(H_COEFF_31_TO_32).add(x.mul(coeff))`. */
  function Update(h: Vec, x: Vec, coeff: Vec): Vec
  {
    LaneAdd(LaneMul(h, Coeffs().hCoeff31To32), LaneMul(x, coeff))
  }

  /** One iteration of the block loop at offset `i`: the eight bytes at
      `i`, `i + 8`, `i + 16` and `i + 24` feed `h1`, `h2`, `h3` and `h4`
      with the coefficient vectors for 31^31.., 31^23.., 31^15.. and
      31^7... All four loads must lie inside the source. */
  function Block(a: Accumulators, src: seq<JByte>, i: int): Accumulators
    requires 0 <= i && i + BLOCK <= |src|
  {
    var t := Coeffs();
    Accumulators(
      Update(a.h1, Load(src, i), t.hCoeff32),
      Update(a.h2, Load(src, i + LANES), t.hCoeff24),
      Update(a.h3, Load(src, i + 2 * LANES), t.hCoeff16),
      Update(a.h4, Load(src, i + 3 * LANES), t.hCoeff8))
  }

  /** `h1.reduceLanes(ADD) + h2.reduceLanes(ADD) + h3.reduceLanes(ADD)
      + h4.reduceLanes(ADD)` on Java `int`. */
  function Reduce(a: Accumulators): JInt
  {
    Add(Add(Add(ReduceLanes(a.h1), ReduceLanes(a.h2)), ReduceLanes(a.h3)), ReduceLanes(a.h4))
  }

  /** The exact sum of all 32 lanes. */
  function AccSum(a: Accumulators): int
  {
    Sum(a.h1) + Sum(a.h2) + Sum(a.h3) + Sum(a.h4)
  }

  /** The reduction is the exact sum of all lanes modulo 2^32. */
  lemma ReduceIsWrappedSum(a: Accumulators)
    ensures Reduce(a) == Wrap(AccSum(a))
  {
    ReduceLanesIsSum(a.h1);
    ReduceLanesIsSum(a.h2);
    ReduceLanesIsSum(a.h3);
    ReduceLanesIsSum(a.h4);
    AddWrapped(Sum(a.h1), Sum(a.h2));
    AddWrapped(Sum(a.h1) + Sum(a.h2), Sum(a.h3));
    AddWrapped(Sum(a.h1) + Sum(a.h2) + Sum(a.h3), Sum(a.h4));
  }

  /** The initial accumulators reduce to 1, the hash of no bytes. */
  lemma InitialIsEmptyHash()
    ensures Reduce(Initial()) == ScalarHash([])
  {
    var a := Initial();
    ReduceIsWrappedSum(a);
    SumOfSingleton(a.h1, 0);
    SumOfSingleton(a.h2, 0);
    SumOfSingleton(a.h3, 0);
    SumOfSingleton(a.h4, 0);
  }

  /** A 32-byte block folded from 0 splits into its four 8-byte groups,
      weighted by 31^24, 31^16, 31^8 and 1. */
  lemma BlockSplit(b: seq<int>)
    requires |b| == BLOCK
    ensures HashFrom(0, b) ==
      Pow31(24) * HashFrom(0, b[0..8]) + Pow31(16) * HashFrom(0, b[8..16])
      + Pow31(8) * HashFrom(0, b[16..24]) + HashFrom(0, b[24..32])
  {
    assert b == b[0..8] + b[8..16] + b[16..24] + b[24..32];
    HashFromConcat(b[0..8] + b[8..16] + b[16..24], b[24..32]);
    HashFromConcat(b[0..8] + b[8..16], b[16..24]);
    HashFromConcat(b[0..8], b[8..16]);
    PowAdd(8, 8);
    PowAdd(16, 8);
    Horner(Pow31(8), HashFrom(0, b[0..8]), HashFrom(0, b[8..16]), HashFrom(0, b[16..24]), HashFrom(0, b[24..32]),
           HashFrom(0, b[0..8] + b[8..16]), HashFrom(0, b[0..8] + b[8..16] + b[16..24]), HashFrom(0, b));
  }

  /** Three steps of `w = p * w + f`, expanded. */
  lemma Horner(p: int, f0: int, f1: int, f2: int, f3: int, x: int, y: int, z: int)
    requires x == p * f0 + f1 && y == p * x + f2 && z == p * y + f3
    ensures z == (p * p * p) * f0 + (p * p) * f1 + p * f2 + f3
  {
  }

  /** The exact lane sum of an accumulator whose lane sum was `s` after
      one more block, in which its 8-byte group `g` is followed by `e`
      more bytes: the old sum is carried past the 32 bytes of the block and
      the group's bytes enter with their weights. */
  function Fed(s: int, g: seq<int>, e: nat): int
  {
    Pow31(32) * s + Pow31(e) * HashFrom(0, g)
  }

  /** One accumulator fed with an 8-lane vector `x` whose weights within
      the block are `Weights(e)`. */
  lemma GroupSum(h: Vec, x: Vec, e: nat)
    ensures Cong(Sum(Update(h, x, Weights(e))), Fed(Sum(h), x, e))
  {
    CarryLanes();
    WeightsLanes(e);
    DotPowRow(x, e);
    UpdateSum(h, x, Coeffs().hCoeff31To32, Weights(e), Pow31(32), PowRow(e, LANES), Fed(Sum(h), x, e));
  }

  /** The four loads of one block are its four 8-byte groups. */
  lemma LoadsOfBlock(src: seq<JByte>, i: int)
    requires 0 <= i && i + BLOCK <= |src|
    ensures Load(src, i) == src[i..i + BLOCK][0..8]
    ensures Load(src, i + LANES) == src[i..i + BLOCK][8..16]
    ensures Load(src, i + 2 * LANES) == src[i..i + BLOCK][16..24]
    ensures Load(src, i + 3 * LANES) == src[i..i + BLOCK][24..32]
  {
    LoadInBlock(src, i, 0);
    LoadInBlock(src, i, 8);
    LoadInBlock(src, i, 16);
    LoadInBlock(src, i, 24);
  }

  lemma LoadInBlock(src: seq<JByte>, i: int, k: nat)
    requires 0 <= i && i + BLOCK <= |src| && k + LANES <= BLOCK
    ensures Load(src, i + k) == src[i..i + BLOCK][k..k + 8]
  {
    var v := Load(src, i + k);
    assert forall l :: 0 <= l < LANES ==> v[l] == src[i..i + BLOCK][k..k + 8][l];
  }

  /** Each accumulator after one block: the first takes the block's first
      eight bytes, which are followed by 24 more, and so on. */
  lemma BlockGroups(a: Accumulators, src: seq<JByte>, i: int)
    requires 0 <= i && i + BLOCK <= |src|
    ensures Cong(Sum(Block(a, src, i).h1), Fed(Sum(a.h1), src[i..i + BLOCK][0..8], 24))
    ensures Cong(Sum(Block(a, src, i).h2), Fed(Sum(a.h2), src[i..i + BLOCK][8..16], 16))
    ensures Cong(Sum(Block(a, src, i).h3), Fed(Sum(a.h3), src[i..i + BLOCK][16..24], 8))
    ensures Cong(Sum(Block(a, src, i).h4), Fed(Sum(a.h4), src[i..i + BLOCK][24..32], 0))
  {
    LoadsOfBlock(src, i);
    GroupSum(a.h1, Load(src, i), 24);
    GroupSum(a.h2, Load(src, i + LANES), 16);
    GroupSum(a.h3, Load(src, i + 2 * LANES), 8);
    GroupSum(a.h4, Load(src, i + 3 * LANES), 0);
  }

  /** Four accumulator congruences `s_k ~ r_k` add up to one for their
      totals. */
  lemma CombineGroups(s1: int, s2: int, s3: int, s4: int, r1: int, r2: int, r3: int, r4: int,
                      total: int, y: int)
    requires Cong(s1, r1) && Cong(s2, r2) && Cong(s3, r3) && Cong(s4, r4)
    requires total == s1 + s2 + s3 + s4 && y == r1 + r2 + r3 + r4
    ensures Cong(total, y)
  {
    CongAdd(s1, r1, s2, r2);
    CongAdd(s1 + s2, r1 + r2, s3, r3);
    CongAdd(s1 + s2 + s3, r1 + r2 + r3, s4, r4);
  }

  /** Folding a block over the exact lane sum is feeding each accumulator
      its group. */
  lemma BlockFed(a: Accumulators, b: seq<int>)
    requires |b| == BLOCK
    ensures HashFrom(AccSum(a), b) ==
      Fed(Sum(a.h1), b[0..8], 24) + Fed(Sum(a.h2), b[8..16], 16)
      + Fed(Sum(a.h3), b[16..24], 8) + Fed(Sum(a.h4), b[24..32], 0)
  {
    HashFromLinear(AccSum(a), b);
    BlockSplit(b);
    ScaleAccSum(Pow31(32), a);
  }

  lemma ScaleAccSum(p: int, a: Accumulators)
    ensures p * AccSum(a) == p * Sum(a.h1) + p * Sum(a.h2) + p * Sum(a.h3) + p * Sum(a.h4)
  {
  }

  /** Folding one block into the accumulators moves their exact lane sum
      the way the scalar recurrence moves its state over the block's 32
      bytes, modulo 2^32. */
  lemma BlockSum(a: Accumulators, src: seq<JByte>, i: int)
    requires 0 <= i && i + BLOCK <= |src|
    ensures Cong(AccSum(Block(a, src, i)), HashFrom(AccSum(a), src[i..i + BLOCK]))
  {
    BlockGroups(a, src, i);
    BlockFed(a, src[i..i + BLOCK]);
    CombineGroups(Sum(Block(a, src, i).h1), Sum(Block(a, src, i).h2), Sum(Block(a, src, i).h3), Sum(Block(a, src, i).h4),
                  Fed(Sum(a.h1), src[i..i + BLOCK][0..8], 24), Fed(Sum(a.h2), src[i..i + BLOCK][8..16], 16),
                  Fed(Sum(a.h3), src[i..i + BLOCK][16..24], 8), Fed(Sum(a.h4), src[i..i + BLOCK][24..32], 0),
                  AccSum(Block(a, src, i)), HashFrom(AccSum(a), src[i..i + BLOCK]));
  }

  /** Accumulators that hold the reference hash of some bytes `p` hold,
      after the block at `i`, the reference hash of `p` followed by that
      block, whichever bytes `p` are. */
  lemma BlockExtendsHash(a: Accumulators, src: seq<JByte>, i: int, p: seq<JByte>)
    requires 0 <= i && i + BLOCK <= |src|
    requires Reduce(a) == ScalarHash(p)
    ensures Reduce(Block(a, src, i)) == ScalarHash(p + src[i..i + BLOCK])
  {
    ReduceIsWrappedSum(a);
    ReduceIsWrappedSum(Block(a, src, i));
    ScalarFoldIsWrapped(1, p);
    ScalarFoldIsWrapped(1, p + src[i..i + BLOCK]);
    HashFromAppend(1, p, src[i..i + BLOCK]);
    BlockSum(a, src, i);
    HashFromCong(AccSum(a), HashFrom(1, p), src[i..i + BLOCK]);
  }

  /** The block loop's invariant is kept: after one more block, the
      reduction of the accumulators is the reference hash of every byte
      up to the end of that block. */
  lemma BlockPreservesHash(a: Accumulators, src: seq<JByte>, i: int)
    requires 0 <= i && i + BLOCK <= |src|
    requires Reduce(a) == ScalarHash(src[..i])
    ensures Reduce(Block(a, src, i)) == ScalarHash(src[..i + BLOCK])
  {
    BlockExtendsHash(a, src, i, src[..i]);
    assert src[..i + BLOCK] == src[..i] + src[i..i + BLOCK];
  }

  /** The block loop of `SIMDHasherCopy.hash`, one step of 32 bytes per
      iteration: it runs `|src| / 32` times and leaves `i` at the first
      byte after the last whole block. */
  method AccumulateBlocks(src: seq<JByte>) returns (acc: Accumulators, i: nat, blocks: nat)
    ensures blocks == |src| / BLOCK
    ensures i == BLOCK * blocks == BlockBound(|src|)
    ensures Reduce(acc) == ScalarHash(src[..i])
  {
    acc := Initial();
    i := 0;
    blocks := 0;
    InitialIsEmptyHash();
    WholeBlocks(|src|);
    while i < BlockBound(|src|)
      invariant i == BLOCK * blocks <= BlockBound(|src|)
      invariant Reduce(acc) == ScalarHash(src[..i])
    {
      NextBlockFits(|src|, blocks);
      BlockPreservesHash(acc, src, i);
      acc := Block(acc, src, i);
      i := i + BLOCK;
      blocks := blocks + 1;
    }
  }

  /** The tail loop `for (; i < n; i++) sh = 31 * sh + src[i];`: every
      index from `start` to `|src| - 1`, once each, in increasing order,
      each byte widened as signed. */
  method FoldTail(sh0: JInt, src: seq<JByte>, start: nat) returns (sh: JInt)
    requires start <= |src|
    ensures sh == ScalarFold(sh0, src[start..])
  {
    sh := sh0;
    var i := start;
    while i < |src|
      invariant start <= i <= |src|
      invariant sh == ScalarFold(sh0, src[start..i])
    {
      assert src[start..i + 1][..i - start] == src[start..i];
      sh := Add(Mul(31, sh), Widen(src[i]));
      i := i + 1;
    }
    assert src[start..i] == src[start..];
  }

  /** The whole kernel over a run of bytes addressed from 0: blocks, the
      reduction, then the tail from the first byte after the last block. */
  method HashBytes(src: seq<JByte>) returns (h: JInt)
    ensures h == ScalarHash(src)
  {
    var acc, i, blocks := AccumulateBlocks(src);
    h := FoldTail(Reduce(acc), src, i);
    ScalarHashSplit(src, i);
  }
}
