/** `java.nio.ByteBuffer` as a value: its bytes up to the limit and its cursor.
    Only the operations the packing loop uses are modelled. */
module ByteBuffers {
  import opened Java

  datatype BufferState = BufferState(data: seq<byte>, position: int)

  /** Java's buffer invariant: 0 <= position <= limit, and the limit is an `int`. */
  type ByteBuffer = b: BufferState | 0 <= b.position <= |b.data| <= INT_MAX
    witness BufferState([], 0)

  /** `remaining()`: the bytes between the cursor and the limit. */
  function Remaining(b: ByteBuffer): (n: nat)
    ensures b.position + n == |b.data|
  {
    |b.data| - b.position
  }

  /** `get()`: the byte under the cursor, and the buffer with the cursor one
      further; at the limit it throws. */
  function Get(b: ByteBuffer): (r: Result<(byte, ByteBuffer)>)
    ensures r.Success? <==> b.position < |b.data|
    ensures r.Success? ==> r.value.0 == b.data[b.position]
    ensures r.Success? ==> r.value.1 == b.(position := b.position + 1)
    ensures r.Failure? ==> r.error == BufferUnderflow
  {
    if b.position < |b.data| then
      Success((b.data[b.position], b.(position := b.position + 1)))
    else
      Failure(BufferUnderflow)
  }

  /** `position(p)`: moves the cursor; a target below zero or past the limit throws. */
  function SetPosition(b: ByteBuffer, p: int): (r: Result<ByteBuffer>)
    ensures r.Success? <==> 0 <= p <= |b.data|
    ensures r.Success? ==> r.value == b.(position := p)
    ensures r.Failure? ==> r.error == IllegalPosition
  {
    if 0 <= p <= |b.data| then Success(b.(position := p)) else Failure(IllegalPosition)
  }

  /** `rewind()`: the cursor back to zero, the bytes untouched. */
  function Rewind(b: ByteBuffer): (r: ByteBuffer)
    ensures r.data == b.data && r.position == 0
  {
    b.(position := 0)
  }
}
