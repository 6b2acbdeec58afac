/** Value types shared by the table model: bytes, 32-bit words and segment offsets. */
module ShmTypes {

  /** One byte of a key or value buffer. */
  type Byte = x: int | 0 <= x < 256

  /** 2^32: the modulus of the 32-bit key arithmetic. */
  const Two32: int := 0x1_0000_0000

  /** An unsigned 32-bit word (LsShmHKey, LsShmSize_t). */
  type U32 = x: int | 0 <= x < Two32

  /** A byte offset into the shared segment; 0 is the null offset. */
  type Offset = nat

  /** The null offset, also the iterator end(). */
  const Null: Offset := 0

  /** LS_FAIL. */
  const Fail: int := -1

  datatype Option<+T> = None | Some(value: T)
}
