/**
 `MemorySegmentState.SIMDHasher`: the vectorised hash of a whole
 `MemorySegment`.

 As written, the block loop steps its index twice per iteration, once in
 the body and once in the loop header, so it folds the blocks at offsets
 0, 64, 128, ... and skips the ones in between; the tail loop then starts
 at the stepped index, which can lie past the last byte. The index is also
 a Java `int` against the `long` size: from 2^31 - 32 bytes on, the second
 step out of the block at 2^31 - 64 wraps it to -2^31, the `long` guard
 still lets it in, and the next load is out of bounds.

 `HashAsWritten` is that code. `HashSingleStep` steps once per iteration
 but keeps the `int` index, and still fails from 2^31 bytes on. `Hash`
 steps once with a `long` index and is the reference hash for every size.
 */
module SegmentHasher {
  import opened Int32
  import opened RollingHash
  import opened ByteSources
  import opened Kernel
  import CopyHasher

  /** How a call ends: with a hash, or with the `IndexOutOfBoundsException`
      a segment load throws at a bad offset. */
  datatype Outcome = Hashed(h: JInt) | IndexOutOfBounds(offset: int)

  /** The distance the as-written loop moves its index per iteration. */
  const STRIDE: nat := 64

  /** The smallest size at which the as-written `int` index wraps. */
  const WRAP_SIZE: nat := 0x7fff_ffe0

  /** Iterations of the as-written block loop over `n` bytes: the index
      takes the values 0, 64, 128, ... while it is below the whole-block
      bound. */
  function Rounds(n: nat): nat
  {
    (n / BLOCK + 1) / 2
  }

  /** Where the as-written tail loop starts folding: at the index the
      block loop leaves, or nowhere when that index is past the end. */
  function TailStart(n: nat): nat
  {
    if STRIDE * Rounds(n) <= n then STRIDE * Rounds(n) else n
  }

  /** The first `m` blocks at offsets 0, 64, 128, ..., concatenated. */
  function EvenBlocks(s: seq<JByte>, m: nat): (r: seq<JByte>)
    requires STRIDE * m <= |s| + BLOCK
    ensures |r| == BLOCK * m
  {
    if m == 0 then [] else EvenBlocks(s, m - 1) + s[STRIDE * (m - 1)..STRIDE * (m - 1) + BLOCK]
  }

  /** The last round's block ends inside the bytes. */
  lemma RoundsFit(n: nat)
    ensures STRIDE * Rounds(n) <= n + BLOCK
  {
  }

  /** The bytes the as-written hasher reads, in the order it folds them:
      the blocks of every round, then the tail. */
  function Kept(s: seq<JByte>): seq<JByte>
  {
    RoundsFit(|s|);
    EvenBlocks(s, Rounds(|s|)) + s[TailStart(|s|)..]
  }

  /** What `HashAsWritten` returns below `WRAP_SIZE` bytes: the blocks'
      reduced sum, continued over the tail. */
  function Strided(s: seq<JByte>): JInt
  {
    RoundsFit(|s|);
    ScalarFold(ScalarHash(EvenBlocks(s, Rounds(|s|))), s[TailStart(|s|)..])
  }

  /** The as-written result is the reference hash of the bytes it keeps. */
  lemma StridedIsHashOfKept(s: seq<JByte>)
    ensures Strided(s) == ScalarHash(Kept(s))
  {
    RoundsFit(|s|);
    ScalarFoldAppend(1, EvenBlocks(s, Rounds(|s|)), s[TailStart(|s|)..]);
  }

  /** Up to 32 bytes nothing is skipped; beyond 32 bytes some byte always
      is. */
  lemma KeptLength(s: seq<JByte>)
    ensures |s| <= BLOCK ==> Kept(s) == s
    ensures |s| > BLOCK ==> |Kept(s)| < |s|
  {
    RoundsFit(|s|);
    if |s| <= BLOCK {
      if |s| == BLOCK {
        assert EvenBlocks(s, 1) == s;
      }
    }
  }

  /** With at most 32 bytes the as-written hasher is the reference hash. */
  lemma StridedShort(s: seq<JByte>)
    requires |s| <= BLOCK
    ensures Strided(s) == ScalarHash(s)
  {
    StridedIsHashOfKept(s);
    KeptLength(s);
  }

  /** Thirty-two zero bytes and then a 1: the byte at offset 32 is never
      read, so the as-written result is the hash of the zeros alone. */
  lemma StridedDrops()
    ensures Strided(seq(32, _ => 0) + [1]) == 2111290369
    ensures ScalarHash(seq(32, _ => 0) + [1]) == 1025492000
  {
    var z: seq<JByte> := seq(32, _ => 0);
    var s: seq<JByte> := z + [1];
    ZeroBlockHash();
    assert EvenBlocks(s, 1) == z;
    assert s[TailStart(|s|)..] == [];
    assert s[..|s| - 1] == z;
    assert 31 * 2111290369 + 1 == 1025492000 + TWO_32 * 15;
    WrapShift(1025492000, 15);
    WrapOfInRange(1025492000);
  }

  /** The whole-block bound lies at most one block below the size. */
  lemma BoundNearSize(n: nat)
    ensures BlockBound(n) <= n < BlockBound(n) + BLOCK
  {
  }

  /** A multiple of `q` below 2^31 is at most 2^31 - `q`, when `q` divides
      2^31. */
  lemma MultipleBelowWrap(q: nat, k: nat)
    requires q == BLOCK || q == STRIDE
    requires q * k < 0x8000_0000
    ensures q * k <= 0x8000_0000 - q
  {
  }

  /** The two steps `i += 32` of one as-written iteration, from an index
      that is a multiple of 64: the first is always exact, the second
      wraps to -2^31 exactly when it starts from 2^31 - 32. */
  lemma DoubleStep(i: JInt, m: nat)
    requires i == STRIDE * m
    ensures Add(i, BLOCK) == i + BLOCK
    ensures i + STRIDE < 0x8000_0000 ==> Add(Add(i, BLOCK), BLOCK) == i + STRIDE
    ensures i + STRIDE >= 0x8000_0000 ==>
      i == 0x8000_0000 - STRIDE && Add(Add(i, BLOCK), BLOCK) == -0x8000_0000
  {
    WrapOfInRange(i + BLOCK);
    if i + STRIDE < 0x8000_0000 {
      WrapOfInRange(i + STRIDE);
    } else {
      WrapShift(-0x8000_0000, 1);
      WrapOfInRange(-0x8000_0000);
    }
  }

  /** The loop stops after the round whose stepped index first reaches the
      whole-block bound. */
  lemma RoundsExact(n: nat, m: nat)
    requires BlockBound(n) <= STRIDE * m < BlockBound(n) + STRIDE
    ensures m == Rounds(n)
  {
    WholeBlocks(n);
  }

  /** The as-written block loop: two `int` steps of 32 per iteration,
      under the `long` guard. It stops at the end of the rounds, or at the
      first round whose loads would leave the segment, and returns that
      round's index. Below `WRAP_SIZE` bytes it runs every round and folds
      the blocks at 0, 64, 128, ...; from `WRAP_SIZE` bytes on it stops
      at the wrapped index -2^31. */
  method StridedBlocks(ms: MemorySegment) returns (acc: Accumulators, i: JInt)
    ensures ByteSize(ms) < WRAP_SIZE ==>
      && i == STRIDE * Rounds(ByteSize(ms))
      && Reduce(acc) == ScalarHash(EvenBlocks(ms.bytes, Rounds(ByteSize(ms))))
    ensures ByteSize(ms) >= WRAP_SIZE ==> i == -0x8000_0000
  {
    var n := ByteSize(ms);
    var bound := BlockBound(n);
    BoundNearSize(n);
    RoundsFit(n);
    acc := Initial();
    InitialIsEmptyHash();
    i := 0;
    var m: nat := 0;
    while i < bound
      invariant (0 <= i == STRIDE * m < bound + STRIDE && STRIDE * m <= n + BLOCK
                 && Reduce(acc) == ScalarHash(EvenBlocks(ms.bytes, m)))
             || (i == -0x8000_0000 && n >= WRAP_SIZE)
      decreases if i >= 0 then bound + STRIDE - i else 0
    {
      if 0 <= i {
        NextBlockFits(n, 2 * m);
      }
      if !(0 <= i && i + BLOCK <= n) {
        return;
      }
      acc, i := Round(ms, acc, i, m);
      m := m + 1;
    }
    assert 0 <= i == STRIDE * m && bound <= STRIDE * m < bound + STRIDE;
    RoundsExact(n, m);
    MultipleBelowWrap(STRIDE, m);
  }

  /** One iteration of the as-written block loop: the block at `i` goes
      into the accumulators, then `i` is stepped by 32 in the body and by
      32 again in the loop header. After the round starting at
      2^31 - 64 the index wraps to -2^31, which only a segment of at least
      `WRAP_SIZE` bytes reaches. */
  method Round(ms: MemorySegment, acc: Accumulators, i: JInt, m: nat) returns (acc': Accumulators, i': JInt)
    requires 0 <= i == STRIDE * m && i + BLOCK <= BlockBound(ByteSize(ms))
    requires Reduce(acc) == ScalarHash(EvenBlocks(ms.bytes, m))
    ensures Reduce(acc') == ScalarHash(EvenBlocks(ms.bytes, m + 1))
    ensures i + STRIDE < 0x8000_0000 ==> i' == i + STRIDE
    ensures i + STRIDE >= 0x8000_0000 ==> i' == -0x8000_0000 && ByteSize(ms) >= WRAP_SIZE
  {
    BoundNearSize(ByteSize(ms));
    BlockExtendsHash(acc, ms.bytes, i, EvenBlocks(ms.bytes, m));
    acc' := Block(acc, ms.bytes, i);
    DoubleStep(i, m);
    i' := Add(i, BLOCK);
    i' := Add(i', BLOCK);
  }

  /** `SIMDHasher.hash(ms)` as written. Below `WRAP_SIZE` bytes it hashes
      the kept bytes only; from `WRAP_SIZE` bytes on, every call ends with
      a load at offset -2^31. */
  method HashAsWritten(ms: MemorySegment) returns (r: Outcome)
    ensures ByteSize(ms) < WRAP_SIZE ==> r == Hashed(Strided(ms.bytes))
    ensures ByteSize(ms) >= WRAP_SIZE ==> r == IndexOutOfBounds(-0x8000_0000)
  {
    var acc, i := StridedBlocks(ms);
    if i < 0 {
      return IndexOutOfBounds(i);
    }
    var sh := SegmentTail(Reduce(acc), ms, i);
    r := Hashed(sh);
  }

  /** The block loop with one step per iteration but still an `int`
      index: below 2^31 bytes it is the reference hash, from 2^31 bytes on
      the step out of the block at 2^31 - 32 wraps the index to -2^31 and
      the next load is out of bounds. */
  method HashSingleStep(ms: MemorySegment) returns (r: Outcome)
    ensures ByteSize(ms) < 0x8000_0000 ==> r == Hashed(ScalarHash(ms.bytes))
    ensures ByteSize(ms) >= 0x8000_0000 ==> r == IndexOutOfBounds(-0x8000_0000)
  {
    var n := ByteSize(ms);
    var bound := BlockBound(n);
    BoundNearSize(n);
    var acc := Initial();
    InitialIsEmptyHash();
    var i: JInt := 0;
    var blocks: nat := 0;
    while i < bound
      invariant (0 <= i == BLOCK * blocks <= bound && Reduce(acc) == ScalarHash(ms.bytes[..i]))
             || (i == -0x8000_0000 && n >= 0x8000_0000)
      decreases if i >= 0 then bound - i + 1 else 0
    {
      if 0 <= i {
        NextBlockFits(n, blocks);
      }
      if !(0 <= i && i + BLOCK <= n) {
        return IndexOutOfBounds(i);
      }
      BlockPreservesHash(acc, ms.bytes, i);
      acc := Block(acc, ms.bytes, i);
      SingleStep(i, blocks);
      i := Add(i, BLOCK);
      blocks := blocks + 1;
    }
    assert 0 <= i == BLOCK * blocks == bound;
    MultipleBelowWrap(BLOCK, blocks);
    assert n < 0x8000_0000;
    var sh := SegmentTail(Reduce(acc), ms, i);
    ScalarHashSplit(ms.bytes, i);
    r := Hashed(sh);
  }

  /** One step `i += 32` from a multiple of 32: exact, or from 2^31 - 32 a
      wrap to -2^31. */
  lemma SingleStep(i: JInt, blocks: nat)
    requires i == BLOCK * blocks
    ensures i + BLOCK < 0x8000_0000 ==> Add(i, BLOCK) == i + BLOCK
    ensures i + BLOCK >= 0x8000_0000 ==>
      i == 0x8000_0000 - BLOCK && Add(i, BLOCK) == -0x8000_0000
  {
    if i + BLOCK < 0x8000_0000 {
      WrapOfInRange(i + BLOCK);
    } else {
      WrapShift(-0x8000_0000, 1);
      WrapOfInRange(-0x8000_0000);
    }
  }

  /** The tail loop `for (; i < ms.byteSize(); i++) sh = 31 * sh +
      ms.get(JAVA_BYTE, i);`: every offset from `start` to the end, once
      each, in increasing order, read through the segment, so never out of
      bounds, and widened as signed. An index already at or past the end
      folds nothing. */
  method SegmentTail(sh0: JInt, ms: MemorySegment, start: nat) returns (sh: JInt)
    ensures start <= ByteSize(ms) ==> sh == ScalarFold(sh0, ms.bytes[start..])
    ensures start >= ByteSize(ms) ==> sh == sh0
  {
    sh := sh0;
    var i := start;
    while i < ByteSize(ms)
      invariant start <= ByteSize(ms) ==> start <= i <= ByteSize(ms)
      invariant start <= ByteSize(ms) ==> sh == ScalarFold(sh0, ms.bytes[start..i])
      invariant start > ByteSize(ms) ==> i == start && sh == sh0
    {
      assert ms.bytes[start..i + 1][..i - start] == ms.bytes[start..i];
      var b := SegmentGet(ms, i).value;
      sh := Add(Mul(31, sh), Widen(b));
      i := i + 1;
    }
    if start <= ByteSize(ms) {
      assert ms.bytes[start..i] == ms.bytes[start..];
    }
  }

  /** The hash with one step per iteration and a `long` index: the
      reference hash of the segment's bytes, whatever its size. */
  method Hash(ms: MemorySegment) returns (h: JInt)
    ensures h == ScalarHash(ms.bytes)
  {
    h := HashBytes(ms.bytes);
  }

  /** The corrected segment hash (`Hash`) of a segment over a buffer's
      backing array and `SIMDHasherCopy` on that buffer give the same
      hash. */
  method AgreesWithCopy(bbdata: ByteBuffer) returns (viaSegment: JInt, viaCopy: JInt)
    requires bbdata.Valid()
    ensures viaSegment == viaCopy == ScalarHash(bbdata.hb)
  {
    viaSegment := Hash(MemorySegment(bbdata.hb));
    viaCopy := CopyHasher.Hash(bbdata, 0);
  }

  /** The segment hash as written against `SIMDHasherCopy` on the same
      bytes: they agree up to 32 bytes; beyond that the segment hash is
      the reference hash of fewer bytes than the copy hasher reads (see
      `KeptLength` and `StridedDrops`), and an array of `WRAP_SIZE` bytes
      or more, which Java allows, makes the segment hash fail. */
  method AsWrittenVersusCopy(bbdata: ByteBuffer) returns (viaSegment: Outcome, viaCopy: JInt)
    requires bbdata.Valid()
    ensures viaCopy == ScalarHash(bbdata.hb)
    ensures |bbdata.hb| <= BLOCK ==> viaSegment == Hashed(viaCopy)
    ensures BLOCK < |bbdata.hb| < WRAP_SIZE ==>
      viaSegment == Hashed(ScalarHash(Kept(bbdata.hb))) && |Kept(bbdata.hb)| < |bbdata.hb|
    ensures |bbdata.hb| >= WRAP_SIZE ==> viaSegment == IndexOutOfBounds(-0x8000_0000)
  {
    viaSegment := HashAsWritten(MemorySegment(bbdata.hb));
    viaCopy := CopyHasher.Hash(bbdata, 0);
    StridedIsHashOfKept(bbdata.hb);
    KeptLength(bbdata.hb);
    if |bbdata.hb| <= BLOCK {
      StridedShort(bbdata.hb);
    }
  }
}
