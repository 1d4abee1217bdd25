/**
 `HashCode.SIMDHasherCopy`: the vectorised hash of the buffer's whole
 backing array (`bbdata.array()`), which ignores the buffer's offset,
 cursor and limit.
 */
module CopyHasher {
  import opened Int32
  import opened RollingHash
  import opened ByteSources
  import opened Kernel

  /** `SIMDHasherCopy.hash(bbdata, seed)`: the kernel over the backing
      array; the seed is unused. */
  method Hash(bbdata: ByteBuffer, seed: JInt) returns (h: JInt)
    requires bbdata.Valid()
    ensures h == ScalarHash(bbdata.hb)
  {
    h := HashBytes(bbdata.hb);
  }
}
