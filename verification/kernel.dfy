/**
 * The kernel-side vocabulary the runtime works with: fixed-width integers,
 * task identities, lease attribute bits and the records that the receive and
 * borrow-info system calls return. The system calls themselves are not part of
 * this model; their results are inputs to the operations that use them.
 */
module Kernel {

  type U8 = x: int | 0 <= x < 0x100

  type U16 = x: int | 0 <= x < 0x1_0000

  type U32 = x: int | 0 <= x < 0x1_0000_0000

  /** `NonZeroU32`, the type of a slice lease's optional maximum length. */
  type NonZeroU32 = x: U32 | x > 0 witness 1

  /** One more than the largest `usize`: the runtime targets 32-bit processors. */
  const USIZE_LIMIT: nat := 0x1_0000_0000

  type Usize = x: int | 0 <= x < USIZE_LIMIT

  /** A task identity, as the kernel hands it out (16 bits). */
  type TaskId = U16

  /** The identity a message carries when the kernel, not a task, sent it (`TaskId::KERNEL`). */
  const KERNEL: TaskId := 0xFFFF

  /** `LeaseAttributes`: a set of access bits, as a bit field. */
  type Attributes = bv32

  const READ: Attributes := 1

  const WRITE: Attributes := 2

  /** `LeaseAttributes::contains`: every bit of `want` is set in `have`. */
  predicate Contains(have: Attributes, want: Attributes)
  {
    have & want == want
  }

  /** What `sys_borrow_info` reports about one lease: its attributes and its length in bytes. */
  datatype BorrowInfo = BorrowInfo(attributes: Attributes, len: Usize)

  /** The part of `RecvMessage` that the dispatch loops read. */
  datatype RecvMessage = RecvMessage(
    sender: TaskId,
    operation: U32,
    messageLen: Usize,
    responseCapacity: Usize)
}
