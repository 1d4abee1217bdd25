/**
 `HashCode.SIMDHasher`: the vectorised hash of a buffer's remaining bytes,
 read through a `MemorySegment` view taken on entry.

 The block loop also moves the buffer's cursor 8 bytes per block. The
 tail then puts the cursor back at its position on entry and folds every
 remaining byte, so the bytes of the whole blocks are folded a second time,
 on top of the reduced block sum. `Hash` is that code as written;
 `HashFixed` restarts the tail after the last whole block instead, which
 gives the reference hash.
 */
module BufferHasher {
  import opened Int32
  import opened RollingHash
  import opened Lanes
  import opened ByteSources
  import opened Kernel

  /** What `Hash` returns for remaining bytes `rem`: the fold of all of
      `rem`, started from the hash of its whole blocks. */
  function Refolded(rem: seq<JByte>): JInt
  {
    ScalarFold(ScalarHash(rem[..BlockBound(|rem|)]), rem)
  }

  /** The block loop: the accumulators take every whole block of the view
      `ms`, and after each block the cursor moves 8 bytes on. Every move
      stays within the limit. */
  method BlockLoop(data: ByteBuffer, ms: MemorySegment) returns (acc: Accumulators, i: nat, buf: ByteBuffer)
    requires data.Valid() && ms == OfBuffer(data)
    ensures i == BlockBound(Remaining(data))
    ensures Reduce(acc) == ScalarHash(ms.bytes[..i])
    ensures buf == data.(position := data.position + i / 4)
  {
    var initLen := Remaining(data);
    var bound := BlockBound(initLen);
    acc := Initial();
    i := 0;
    buf := data;
    var blocks: nat := 0;
    InitialIsEmptyHash();
    WholeBlocks(initLen);
    while i < bound
      invariant i == BLOCK * blocks <= bound
      invariant buf == data.(position := data.position + LANES * blocks)
      invariant Reduce(acc) == ScalarHash(ms.bytes[..i])
    {
      NextBlockFits(initLen, blocks);
      BlockPreservesHash(acc, ms.bytes, i);
      acc := Block(acc, ms.bytes, i);
      buf := SetPosition(buf, buf.position + LANES).value;
      i := i + BLOCK;
      blocks := blocks + 1;
    }
  }

  /** The tail loop `while (data.hasRemaining()) sh = 31 * sh + data.get();`:
      it folds every remaining byte in order and leaves the cursor at the
      limit. */
  method Drain(sh0: JInt, b0: ByteBuffer) returns (sh: JInt, b: ByteBuffer)
    requires b0.Valid()
    ensures sh == ScalarFold(sh0, RemainingBytes(b0))
    ensures b == b0.(position := b0.limit)
  {
    sh := sh0;
    b := b0;
    while HasRemaining(b)
      invariant b == b0.(position := b.position) && b0.position <= b.position <= b0.limit
      invariant sh == ScalarFold(sh0, RemainingBytes(b0)[..b.position - b0.position])
      decreases b.limit - b.position
    {
      var k := b.position - b0.position;
      GetConsumesHead(b);
      var got := Get(b).value;
      assert RemainingBytes(b0)[..k + 1][..k] == RemainingBytes(b0)[..k];
      sh := Add(Mul(31, sh), Widen(got.0));
      b := got.1;
    }
    assert RemainingBytes(b0)[..b.position - b0.position] == RemainingBytes(b0);
  }

  /** `SIMDHasher.hash(data, seed)` as written: the tail restarts at the
      cursor position on entry. The buffer is left as it was found; the
      result is the reference hash only when fewer than 32 bytes remain
      (see `RefoldedShort` and `RefoldedDiffers`). */
  method Hash(data: ByteBuffer, seed: JInt) returns (h: JInt, after: ByteBuffer)
    requires data.Valid()
    ensures after == data
    ensures h == Refolded(RemainingBytes(data))
  {
    var origPos := data.position;
    var ms := OfBuffer(data);
    var acc, i, buf := BlockLoop(data, ms);
    var sh := Reduce(acc);
    buf := SetPosition(buf, origPos).value;
    sh, buf := Drain(sh, buf);
    after := SetPosition(buf, origPos).value;
    h := sh;
  }

  /** The hash with the tail restarted at `origPos + i`, the first byte
      after the last whole block: the reference hash of the remaining
      bytes, and the buffer is left as it was found. */
  method HashFixed(data: ByteBuffer, seed: JInt) returns (h: JInt, after: ByteBuffer)
    requires data.Valid()
    ensures after == data
    ensures h == ScalarHash(RemainingBytes(data))
  {
    var origPos := data.position;
    var ms := OfBuffer(data);
    var acc, i, buf := BlockLoop(data, ms);
    var sh := Reduce(acc);
    WholeBlocks(Remaining(data));
    SetPositionRemaining(buf, origPos + i);
    buf := SetPosition(buf, origPos + i).value;
    assert RemainingBytes(buf) == ms.bytes[i..];
    sh, buf := Drain(sh, buf);
    after := SetPosition(buf, origPos).value;
    h := sh;
    ScalarHashSplit(ms.bytes, i);
  }

  /** With fewer than 32 remaining bytes the block loop does not run, the
      reduction is 1 and the refold is the reference hash. */
  lemma RefoldedShort(rem: seq<JByte>)
    requires |rem| < BLOCK
    ensures Refolded(rem) == ScalarHash(rem)
  {
    assert rem[..BlockBound(|rem|)] == [];
  }

  /** The refold agrees with the reference hash exactly when the hash of
      the whole blocks, carried past all `n` remaining bytes, agrees with
      the 1 that the reference hash starts from, modulo 2^32. */
  lemma RefoldedAgreement(rem: seq<JByte>)
    ensures Refolded(rem) == ScalarHash(rem) <==>
      Cong(Pow31(|rem|) * ScalarHash(rem[..BlockBound(|rem|)]), Pow31(|rem|))
  {
    ScalarFoldIsWrapped(ScalarHash(rem[..BlockBound(|rem|)]), rem);
    ScalarFoldIsWrapped(1, rem);
    HashFromLinear(ScalarHash(rem[..BlockBound(|rem|)]), rem);
    HashFromLinear(1, rem);
    CongCancelAt(Pow31(|rem|) * ScalarHash(rem[..BlockBound(|rem|)]), Pow31(|rem|), HashFrom(0, rem),
                 HashFrom(ScalarHash(rem[..BlockBound(|rem|)]), rem), HashFrom(1, rem));
  }

  /** Thirty-two zero bytes: the reference hash is 31^32 modulo 2^32, but
      the refold multiplies by 31^32 once more. */
  lemma RefoldedDiffers()
    ensures Refolded(seq(32, _ => 0)) == 1304393729
    ensures ScalarHash(seq(32, _ => 0)) == 2111290369
  {
    var z: seq<JByte> := seq(32, _ => 0);
    assert z[..BlockBound(|z|)] == z;
    ZeroBlockHash();
    ScalarFoldZeros(2111290369, 32);
    CarriedTwiceValue();
  }

  /** (31^32 modulo 2^32) times 31^32, modulo 2^32. */
  lemma CarriedTwiceValue()
    ensures Wrap(Pow31(32) * 2111290369) == 1304393729
  {
    Pow31Value();
    assert Pow31(32) * 2111290369 == 1304393729 + TWO_32 * 260113149745943343174132316068896900303541171005;
    WrapShift(1304393729, 260113149745943343174132316068896900303541171005);
    WrapOfInRange(1304393729);
  }
}
