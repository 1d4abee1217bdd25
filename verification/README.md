# Vectorised `Arrays.hashCode(byte[])` in Dafny

The benchmarks in `uk.co.openkappa.xxhash.benchmarks` compute Java's byte-array hash with the Vector API. The hash starts at `h = 1` and sets `h = 31 * h + b` for every byte `b`, on 32-bit `int` with wrap-around, each byte read as signed. The vectorised kernel keeps four 8-lane `int` accumulators `h1..h4`. Each 32-byte block multiplies every lane by 31^32 and adds the block's bytes weighted by descending powers of 31. The lanes are then summed, and the bytes after the last whole block are folded in one at a time. This project models the kernel and its three uses, and proves what each computes:

- `HashCode.SIMDHasherCopy` (module `CopyHasher`) hashes a buffer's whole backing array.
- `HashCode.SIMDHasher` (module `BufferHasher`) hashes a `ByteBuffer`'s remaining bytes through a `MemorySegment` view and moves the buffer's cursor.
- `MemorySegmentState.SIMDHasher` (module `SegmentHasher`) hashes a whole `MemorySegment`.

The other modules:

- `Int32`: Java `int` and `byte` as integer subranges. `Wrap` narrows modulo 2^32, so all algebra is done over unbounded integers and narrowed at the points where Java observes a value.
- `RollingHash`: the reference hash `ScalarHash` and its unbounded counterpart `HashFrom`, with the closed form (every byte weighted by 31 raised to the number of bytes after it).
- `Lanes`: 8-lane `IntVector` operations as sequences of eight `int`s.
- `Coefficients`: the static initialiser's table of powers, which both classes build with the same code.
- `Kernel`: the block step, the lane reduction and the tail loop, with the main theorem `BlockPreservesHash`. After every whole block, the lane sum is the reference hash of the bytes read so far.
- `ByteSources`: the parts of `ByteBuffer` and `MemorySegment` the hashers use. A Java exception is modelled as `None`.

Points where the code differs from a first reading:

- Bytes are sign-extended everywhere: `castShape` byte to int, `data[i]`, and `JAVA_BYTE` reads. They are not 0..255 values. A byte 0xFF contributes -1 (`RollingHash.ReferenceValues`).
- `"abc"` hashes to 126145, which is what `31*(31*(31*1+97)+98)+99` evaluates to.
- Thirty-two zero bytes do not hash to 1. The initial 1 is multiplied by 31 once per byte, so they hash to 31^32 modulo 2^32 = 2111290369 (`RollingHash.ZeroBlockHash`).
- The segment hasher's block loop does not run `byteSize / 32` times. It advances its index twice per iteration (see Findings).

## Model

| member | source | states |
|---|---|---|
| Coefficients.Powers | src/main/java/uk/co/openkappa/xxhash/benchmarks/HashCode.java:84-88 | the array of powers ends in 1 and entry `k` is 31^(31-k) modulo 2^32, for all 32 entries |
| Coefficients.NextPower | src/main/java/uk/co/openkappa/xxhash/benchmarks/HashCode.java:87 | one step `x[k+1] * 31` of the loop turns 31^j modulo 2^32 into 31^(j+1) modulo 2^32 |
| Coefficients.SliceIsWeights | src/main/java/uk/co/openkappa/xxhash/benchmarks/HashCode.java:98-101 | `IntVector.fromArray(x, 24 - e)` reads lanes 31^(e+7), ..., 31^e modulo 2^32 |
| Coefficients.Initialise | src/main/java/uk/co/openkappa/xxhash/benchmarks/HashCode.java:83-102 | `COEFF_31_TO_8/16/32` are 31^8, 31^16, 31^32 modulo 2^32; lane j of `H_COEFF_32/24/16/8` is 31^(31-j), 31^(23-j), 31^(15-j), 31^(7-j) modulo 2^32; every lane of each broadcast is its constant |
| Coefficients.TableOfPowers | src/main/java/uk/co/openkappa/xxhash/benchmarks/MemorySegmentState.java:70-81 | the second class's constants, derived from the same array of powers, are the same table, lane for lane |
| Int32.StepIsWrapped | src/main/java/uk/co/openkappa/xxhash/benchmarks/HashCode.java:151 | `31 * sh + b` with a wrap after each operation is the exact value wrapped once |
| RollingHash.ScalarFoldIsWrapped | src/main/java/uk/co/openkappa/xxhash/benchmarks/HashCode.java:150-152 | the `int` fold of any bytes from any start is the exact fold modulo 2^32 |
| RollingHash.HashFromLinear | src/main/java/uk/co/openkappa/xxhash/benchmarks/HashCode.java:150-152 | the exact fold from `h` is 31^n times `h` plus the fold from 0 |
| RollingHash.ScalarHashClosedForm | src/main/java/uk/co/openkappa/xxhash/benchmarks/HashCode.java:146-153 | the reference hash is 31^n plus each byte times 31^(bytes after it), modulo 2^32 |
| RollingHash.ScalarFoldAppend | src/main/java/uk/co/openkappa/xxhash/benchmarks/HashCode.java:150-152 | folding a concatenation is folding the second part from the result of the first |
| RollingHash.ScalarHashSplit | src/main/java/uk/co/openkappa/xxhash/benchmarks/HashCode.java:146-152 | continuing the hash of a prefix over the rest gives the hash of the whole |
| RollingHash.ScalarFoldZeros | src/main/java/uk/co/openkappa/xxhash/benchmarks/HashCode.java:150-152 | folding n zero bytes from `sh` multiplies `sh` by 31^n modulo 2^32 |
| RollingHash.ZeroBlockHash | src/main/java/uk/co/openkappa/xxhash/benchmarks/HashCode.java:150-152 | thirty-two zero bytes hash to 2111290369 |
| RollingHash.ReferenceValues | src/main/java/uk/co/openkappa/xxhash/benchmarks/HashCode.java:150-152 | no bytes hash to 1, "abc" to 126145, the byte 0xFF (read as -1) to 30 |
| Lanes.ReduceLanesIsSum | src/main/java/uk/co/openkappa/xxhash/benchmarks/HashCode.java:146-149 | the wrapped left-to-right `reduceLanes(ADD)` is the exact lane sum narrowed once |
| Lanes.UpdateSum | src/main/java/uk/co/openkappa/xxhash/benchmarks/HashCode.java:131 | the lane sum of `h.mul(carry).add(x.mul(coeff))` is congruent to the carry times the lane sum of `h`, plus the bytes dotted with the weights |
| Kernel.WholeBlocks | src/main/java/uk/co/openkappa/xxhash/benchmarks/HashCode.java:128 | the loop bound is 32 * (n / 32) and at most n |
| Kernel.NextBlockFits | src/main/java/uk/co/openkappa/xxhash/benchmarks/HashCode.java:128-141 | a block that starts below the bound ends at or before it, so the four 8-byte loads lie inside the bytes |
| Kernel.InitialIsEmptyHash | src/main/java/uk/co/openkappa/xxhash/benchmarks/HashCode.java:123-126 | `h1 = [1,0,...,0]`, `h2 = h3 = h4 = 0` reduce to 1, the hash of no bytes |
| Kernel.ReduceIsWrappedSum | src/main/java/uk/co/openkappa/xxhash/benchmarks/HashCode.java:146-149 | the `int` sum of the four reductions is the exact sum of all 32 lanes modulo 2^32 |
| Kernel.LoadsOfBlock | src/main/java/uk/co/openkappa/xxhash/benchmarks/HashCode.java:129-141 | the loads at `i`, `i+8`, `i+16`, `i+24` are the four 8-byte groups of the block at `i` |
| Kernel.BlockSplit | src/main/java/uk/co/openkappa/xxhash/benchmarks/HashCode.java:129-143 | the fold of a block from 0 is its four groups weighted by 31^24, 31^16, 31^8 and 1 |
| Kernel.GroupSum | src/main/java/uk/co/openkappa/xxhash/benchmarks/HashCode.java:131 | one accumulator's update moves its lane sum by a factor of 31^32 plus its group's weighted bytes |
| Kernel.BlockSum | src/main/java/uk/co/openkappa/xxhash/benchmarks/HashCode.java:129-143 | one block moves the exact lane sum the way the scalar recurrence moves its state over the block's 32 bytes, modulo 2^32 |
| Kernel.BlockExtendsHash | src/main/java/uk/co/openkappa/xxhash/benchmarks/MemorySegmentState.java:94-108 | accumulators holding the hash of any bytes `p` hold, after a block, the hash of `p` followed by that block |
| Kernel.BlockPreservesHash | src/main/java/uk/co/openkappa/xxhash/benchmarks/HashCode.java:128-144 | if the reduction is the hash of the first `i` bytes, after the block at `i` it is the hash of the first `i + 32` |
| Kernel.AccumulateBlocks | src/main/java/uk/co/openkappa/xxhash/benchmarks/HashCode.java:123-144 | the block loop runs n / 32 times, stops at 32 * (n / 32), and reduces to the hash of the bytes before that |
| Kernel.FoldTail | src/main/java/uk/co/openkappa/xxhash/benchmarks/HashCode.java:150-152 | the tail loop folds every byte from `start` to the end, once each, in order, signed |
| Kernel.HashBytes | src/main/java/uk/co/openkappa/xxhash/benchmarks/HashCode.java:123-153 | blocks, reduction and tail together give the reference hash of the bytes |
| CopyHasher.Hash | src/main/java/uk/co/openkappa/xxhash/benchmarks/HashCode.java:118-154 | `SIMDHasherCopy.hash` is the reference hash of the whole backing array, for every length; the seed is ignored |
| ByteSources.SetPositionRemaining | src/main/java/uk/co/openkappa/xxhash/benchmarks/HashCode.java:213 | after `position(p)` the buffer is the same but for the cursor, and the bytes from `p` on remain |
| ByteSources.GetConsumesHead | src/main/java/uk/co/openkappa/xxhash/benchmarks/HashCode.java:214-215 | `get()` returns the first remaining byte and leaves the rest remaining |
| BufferHasher.BlockLoop | src/main/java/uk/co/openkappa/xxhash/benchmarks/HashCode.java:167-204 | the block loop folds the `remaining() / 32` whole blocks of the view, and the cursor moves 8 per block, staying within the limit |
| BufferHasher.Drain | src/main/java/uk/co/openkappa/xxhash/benchmarks/HashCode.java:214-216 | `while (hasRemaining()) sh = 31 * sh + get()` folds every remaining byte in order and leaves the cursor at the limit |
| BufferHasher.Hash | src/main/java/uk/co/openkappa/xxhash/benchmarks/HashCode.java:157-220 | as written: the result is the fold of all remaining bytes started from the hash of their whole blocks; the buffer is left as found |
| BufferHasher.RefoldedShort | src/main/java/uk/co/openkappa/xxhash/benchmarks/HashCode.java:169-216 | with fewer than 32 remaining bytes the as-written result is the reference hash |
| BufferHasher.RefoldedAgreement | src/main/java/uk/co/openkappa/xxhash/benchmarks/HashCode.java:206-216 | the as-written result equals the reference hash exactly when 31^n times the blocks' hash is congruent to 31^n modulo 2^32 |
| BufferHasher.RefoldedDiffers | src/main/java/uk/co/openkappa/xxhash/benchmarks/HashCode.java:213-216 | for 32 zero bytes the as-written result is 1304393729, the reference hash 2111290369 |
| BufferHasher.HashFixed | src/main/java/uk/co/openkappa/xxhash/benchmarks/HashCode.java:157-220 | with the tail restarted after the last whole block: the reference hash of the remaining bytes; the buffer is left as found |
| SegmentHasher.Round | src/main/java/uk/co/openkappa/xxhash/benchmarks/MemorySegmentState.java:93-110 | one iteration folds the block at `i` and steps `i` by 64, wrapping to -2^31 after the round at 2^31 - 64, which only a segment of at least 2^31 - 32 bytes reaches |
| SegmentHasher.DoubleStep | src/main/java/uk/co/openkappa/xxhash/benchmarks/MemorySegmentState.java:93-110 | the two `int` steps of 32 are exact below 2^31 - 64 and wrap to -2^31 from there |
| SegmentHasher.RoundsExact | src/main/java/uk/co/openkappa/xxhash/benchmarks/MemorySegmentState.java:93-111 | the loop stops after ceil((n / 32) / 2) rounds |
| SegmentHasher.StridedBlocks | src/main/java/uk/co/openkappa/xxhash/benchmarks/MemorySegmentState.java:87-111 | as written, below 2^31 - 32 bytes the block loop folds the blocks at 0, 64, 128, ...; from 2^31 - 32 bytes on it reaches index -2^31 |
| SegmentHasher.HashAsWritten | src/main/java/uk/co/openkappa/xxhash/benchmarks/MemorySegmentState.java:84-124 | as written: below 2^31 - 32 bytes the result is the blocks' hash continued over the tail from the stepped index; from 2^31 - 32 bytes on, a load at offset -2^31 |
| SegmentHasher.StridedIsHashOfKept | src/main/java/uk/co/openkappa/xxhash/benchmarks/MemorySegmentState.java:93-120 | the as-written result is the reference hash of the bytes it keeps |
| SegmentHasher.KeptLength | src/main/java/uk/co/openkappa/xxhash/benchmarks/MemorySegmentState.java:93-120 | up to 32 bytes every byte is kept; beyond 32 bytes at least one byte is dropped |
| SegmentHasher.StridedShort | src/main/java/uk/co/openkappa/xxhash/benchmarks/MemorySegmentState.java:93-120 | up to 32 bytes the as-written result is the reference hash |
| SegmentHasher.StridedDrops | src/main/java/uk/co/openkappa/xxhash/benchmarks/MemorySegmentState.java:93-120 | for 32 zero bytes and a 1 the as-written result is 2111290369, the reference hash 1025492000 |
| SegmentHasher.SegmentTail | src/main/java/uk/co/openkappa/xxhash/benchmarks/MemorySegmentState.java:118-120 | the tail loop reads every offset from its start to the end through `ms.get`, once each, in order, never out of bounds, and folds it signed; a start at or past the end, which the as-written block loop leaves whenever the number of whole blocks is odd, folds nothing |
| SegmentHasher.SingleStep | src/main/java/uk/co/openkappa/xxhash/benchmarks/MemorySegmentState.java:110 | one `int` step of 32 from a multiple of 32 is exact, or wraps to -2^31 from 2^31 - 32 |
| SegmentHasher.HashSingleStep | src/main/java/uk/co/openkappa/xxhash/benchmarks/MemorySegmentState.java:92-120 | with one step per iteration and the `int` index: the reference hash below 2^31 bytes, a load at offset -2^31 from 2^31 bytes on |
| SegmentHasher.Hash | src/main/java/uk/co/openkappa/xxhash/benchmarks/MemorySegmentState.java:86-123 | with one step per iteration and a `long` index: the reference hash of the segment's bytes for every size |
| SegmentHasher.AgreesWithCopy | src/main/java/uk/co/openkappa/xxhash/benchmarks/MemorySegmentState.java:86-123 | on the same bytes the corrected segment hash (`SegmentHasher.Hash`) and `SIMDHasherCopy.hash` agree |
| SegmentHasher.AsWrittenVersusCopy | src/main/java/uk/co/openkappa/xxhash/benchmarks/MemorySegmentState.java:86-123 | on the same bytes the segment hash as written agrees with `SIMDHasherCopy.hash` up to 32 bytes; from 33 bytes to below 2^31 - 32 it is the reference hash of strictly fewer bytes; from 2^31 - 32 bytes, which a Java array can hold, it fails |

## Left out

- The JMH scaffolding is not modelled: `@Param`/`@State` fields, the implementation factories, and `init()` with its random data. It is harness plumbing with random input.
- `XXHashBenchmark` is not part of this model. It only launches benchmarks and sets JVM flags. One of those flags turns off the Vector API's bounds checks, so the model proves load bounds instead of relying on them.
- `HashCodeHasher` (`ByteBuffer.hashCode`) and `ScalarHasher` (`Arrays.hashCode(data.array())`) only call JDK code. The documented recurrence of `Arrays.hashCode(byte[])` is the reference `ScalarHash`.
- The `HashCodeI` and `MemorySegment` interfaces are signatures only.
- Vector API internals are not modelled; species, `castShape` and `reduceLanes` appear only as lane-wise operations on eight `int`s.
- `ByteOrder.nativeOrder()` is not modelled. It has no effect on single-byte lanes.
- Only heap buffers with a backing array are modelled. Direct and read-only buffers are left out, and so are the exceptions `array()` throws for them. Mark and capacity are left out too.
- Kernel.BlockBound: it models the mask `n & ~(32 - 1)` as `n - n % 32` on non-negative lengths. The identity between the 64-bit mask and this subtraction is not proved, because the conversion between `bv64` and unbounded integers is not modelled.
- Kernel.AccumulateBlocks, Kernel.FoldTail: the `int` index `i` of `SIMDHasherCopy` and of `HashCode.SIMDHasher` is a `nat` here. A Java array, and so a buffer's remaining bytes, holds at most 2^31 - 1 bytes. The index then stays at most the length, and `i + 24` stays below 2^31, so these loops never wrap. Only the segment hasher, whose size is a `long`, models the wrap.
- The `_seed` parameter is carried but never read, as in the code.
- The broadcasts `H_COEFF_31_TO_8` and `H_COEFF_31_TO_16` are modelled in the table, but no kernel uses them.
- Concurrent use of a buffer is not modelled: the buffer hasher's cursor moves are state that another thread could observe.
- SegmentHasher.HashAsWritten: once a load index would leave the segment, the result is the exception. Whether a load with bounds checks switched off would read memory outside the segment is not modelled.

## Findings

| source | as written | input that shows it | evidently intended | confidence | as-written member | corrected member |
|---|---|---|---|---|---|---|
| src/main/java/uk/co/openkappa/xxhash/benchmarks/HashCode.java:213-216 | after the block loop the tail restarts at `origPos`, so it folds every remaining byte again on top of the reduced block sum | 32 zero bytes: 1304393729 instead of 2111290369 | restart the tail after the last whole block, at `origPos + i` | not executed; high | BufferHasher.Hash, BufferHasher.RefoldedDiffers | BufferHasher.HashFixed |
| src/main/java/uk/co/openkappa/xxhash/benchmarks/MemorySegmentState.java:93-110 | `i` is stepped by 32 both in the loop header and at the end of the body, so only the blocks at 0, 64, 128, ... are folded and the tail can start past the end | 32 zero bytes then a 1: 2111290369 instead of 1025492000 | one step of 32 per iteration | not executed; high | SegmentHasher.HashAsWritten, SegmentHasher.StridedDrops | SegmentHasher.Hash |
| src/main/java/uk/co/openkappa/xxhash/benchmarks/MemorySegmentState.java:92-110 | the block index is an `int` compared against the `long` `byteSize()`; stepping past 2^31 - 1 wraps it to -2^31, which still passes the guard | a segment of 2^31 - 32 bytes as written (2^31 bytes with one step per iteration): a load at offset -2^31 | a `long` index | not executed; medium | SegmentHasher.HashAsWritten, SegmentHasher.HashSingleStep | SegmentHasher.Hash |
