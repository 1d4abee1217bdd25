/**
 The two byte sources the hashers read: a heap `java.nio.ByteBuffer`
 (a window of a backing array, with a cursor) and a
 `java.lang.foreign.MemorySegment` (a contiguous run of bytes addressed
 from 0).

 Only the members the hashers call are modelled. A call that Java answers
 with an exception (`IllegalArgumentException` from `position(int)`,
 `BufferUnderflowException` from `get()`, `IndexOutOfBoundsException`
 from a segment access) returns `None` here.
 */
module ByteSources {
  import opened Int32

  datatype Option<T> = None | Some(value: T)

  /** A heap byte buffer: the backing array `hb`, the array index `offset`
      of buffer index 0, and the cursor `position` and end `limit`, both
      buffer indices. The mark and the capacity are not modelled. */
  datatype ByteBuffer = ByteBuffer(hb: seq<JByte>, offset: nat, position: nat, limit: nat)
  {
    /** `0 <= position <= limit`, the window lies inside the backing array,
        and that array is a Java array. */
    predicate Valid()
    {
      position <= limit && offset + limit <= |hb| && |hb| <= MAX_ARRAY_LENGTH
    }
  }

  /** `remaining()`. */
  function Remaining(b: ByteBuffer): int
  {
    b.limit - b.position
  }

  /** `hasRemaining()`. */
  function HasRemaining(b: ByteBuffer): bool
  {
    b.position < b.limit
  }

  /** The bytes from the cursor to the limit, in order. */
  function RemainingBytes(b: ByteBuffer): seq<JByte>
    requires b.Valid()
  {
    b.hb[b.offset + b.position..b.offset + b.limit]
  }

  /** `position(int p)`: moves the cursor; a target outside `[0, limit]`
      throws. */
  function SetPosition(b: ByteBuffer, p: int): Option<ByteBuffer>
  {
    if 0 <= p <= b.limit then Some(b.(position := p)) else None
  }

  /** `get()`: the byte at the cursor, and the buffer with the cursor one
      further; at the limit it throws. */
  function Get(b: ByteBuffer): Option<(JByte, ByteBuffer)>
    requires b.Valid()
  {
    if b.position < b.limit then Some((b.hb[b.offset + b.position], b.(position := b.position + 1)))
    else None
  }

  /** Moving the cursor to any index up to the limit keeps the buffer
      valid, changes nothing else, and leaves exactly the bytes from that
      index on remaining. */
  lemma SetPositionRemaining(b: ByteBuffer, p: int)
    requires b.Valid() && 0 <= p <= b.limit
    ensures SetPosition(b, p).Some?
    ensures SetPosition(b, p).value.Valid()
    ensures SetPosition(b, p).value == b.(position := p)
    ensures RemainingBytes(SetPosition(b, p).value) == b.hb[b.offset + p..b.offset + b.limit]
  {
  }

  /** `get()` consumes the first remaining byte: it returns it, the rest
      remain, and the buffer stays valid. */
  lemma GetConsumesHead(b: ByteBuffer)
    requires b.Valid() && HasRemaining(b)
    ensures Get(b).Some?
    ensures Get(b).value.1.Valid()
    ensures Get(b).value.0 == RemainingBytes(b)[0]
    ensures RemainingBytes(Get(b).value.1) == RemainingBytes(b)[1..]
    ensures Get(b).value.1 == b.(position := b.position + 1)
  {
  }

  /** A memory segment: its bytes, at offsets `0 .. byteSize() - 1`. */
  datatype MemorySegment = MemorySegment(bytes: seq<JByte>)

  /** `byteSize()`. */
  function ByteSize(ms: MemorySegment): nat
  {
    |ms.bytes|
  }

  /** `ms.get(ValueLayout.JAVA_BYTE, off)`; an offset outside the segment
      throws. */
  function SegmentGet(ms: MemorySegment, off: int): Option<JByte>
  {
    if 0 <= off < |ms.bytes| then Some(ms.bytes[off]) else None
  }

  /** `MemorySegment.ofBuffer(b)` for a heap buffer: a view of the bytes
      between the cursor and the limit, taken when the call is made; later
      cursor moves do not change it. */
  function OfBuffer(b: ByteBuffer): MemorySegment
    requires b.Valid()
  {
    MemorySegment(RemainingBytes(b))
  }
}
