# Idol runtime: dispatch loops and leases

A model of the runtime support crate that servers generated by the Idol
compiler link against (`runtime/src/lib.rs`). It covers the crate's two
pieces of decision logic:

- **Dispatch loops** (`dispatch.dfy`). `dispatch` and `dispatch_n` each
  receive one message and dispose of it in exactly one way. A failed closed
  receive goes to the server's `closed_recv_fail` hook. A notification from the
  kernel goes to `handle_notification` (`dispatch_n` only). An unknown
  operation gets status 1. A message or reply that would be truncated gets
  status 2. Otherwise the server's `handle` runs, and the loop replies with the
  handler's error code if it returns one. The loops are methods that append
  every effect to an event trace (`Trace`). The function `DispatchEvents` (or
  `DispatchNEvents`) gives the events of one call, and its contract states the
  properties above.
- **Leases** (`lease.dfy`). `Leased` is a handle on memory that a client
  lends to the server. The four constructors validate the lease against what
  `sys_borrow_info` reports: it exists, it grants the needed access, and its
  length is exactly one element or a whole number of elements, within an
  optional maximum. `read` and `write` copy one element at offset 0.
  `read_at`, `write_at`, `read_range` and `write_range` first compute a byte
  offset (and, for ranges, an expected length) with overflow-checked
  multiplication. An access succeeds only when the raw copy returns code 0 and
  exactly the expected byte count.

Kernel calls are inputs, never effects. `sys_recv`'s result is a parameter
(`None` for an error). `sys_borrow_info`, `sys_borrow_read` and
`sys_borrow_write` are functions of the arguments they are called with, so
each result records which call was made. `sys_reply` is an event in the
trace. The server's `recv_source()`, `current_notification_mask()` and
`handle` are parameters too. So are the interface's `from_u32` and
`max_reply_size`.

Integer widths follow the 32-bit targets the runtime is built for: `usize` is
below 2^32 (`USIZE_LIMIT`), so `checked_mul` fails when the product reaches
2^32. The element type `T` of a lease is represented by its size in bytes
(`elemSize`), and copied values are opaque. The capability markers `R`, `W`
and `RW` are a tag (`Capability`). The accessors require the tag to allow
reading or writing, which is what the trait bounds `AttributeRead` and
`AttributeWrite` enforce at compile time.

Where the code's documentation comments and the code disagree, the model
follows the code:

- `read_range` and `write_range` (lib.rs:477-479, 547-549) promise a panic for
  ranges outside the lease, but they check no bounds. `write_at` has no check
  either, unlike `read_at` (lib.rs:462). The model has only `read_at`'s
  precondition `i < len`.
- The struct field `len` is documented as a byte count (lib.rs:259), but the
  constructors store the element count: 1 for single values, the quotient for
  slices.

## Model

| member | source | states |
|---|---|---|
| `Lease.NeedsReadAndWrite` | runtime/src/lib.rs:199-233 | A lender's attributes satisfy a capability iff they grant READ whenever the capability reads and WRITE whenever it writes (R needs READ, W needs WRITE, RW needs both). |
| `Lease.CheckSized` | runtime/src/lib.rs:284-297 | Succeeds iff the borrow info for (lender, index) exists, its attributes contain the required bits, and its length is exactly one element. |
| `Lease.ExactCount` | runtime/src/lib.rs:324-327 | A byte length holds exactly `n` elements iff it is a multiple of the element size and `n` is the quotient, which is why the remainder test and the division find the only fitting count. |
| `Lease.CheckSlice` | runtime/src/lib.rs:314-336 | Returns `Some(n)` only when the info exists, grants the required bits, is exactly `n` elements long and `n` is within the optional maximum; and for every such `n` it returns `Some(n)`, so otherwise it returns `None`. |
| `Lease.ReadOnly` | runtime/src/lib.rs:347-358 | Succeeds iff the lease exists, grants READ and is one element long; the handle is read-only, single, has `len` 1 and the given lender and index, and is valid for the reported lease. |
| `Lease.WriteOnly` | runtime/src/lib.rs:391-402 | As `ReadOnly`, with WRITE and a write-only handle. |
| `Lease.ReadOnlySlice` | runtime/src/lib.rs:368-380 | A read-only slice handle whose `len` is a count the lease holds exactly, within the maximum, with the given lender and index; every such count yields a handle of that length. |
| `Lease.WriteOnlySlice` | runtime/src/lib.rs:412-424 | As `ReadOnlySlice`, with WRITE and a write-only handle. |
| `Lease.Leased.IsEmpty` | runtime/src/lib.rs:308-311 | On a slice handle, true iff the handle holds no elements (`len == 0`). |
| `Lease.SliceEmptyIffNoBytes` | runtime/src/lib.rs:308-311 | A valid slice handle `is_empty` iff the lease it was built from has zero bytes. |
| `Lease.Read` | runtime/src/lib.rs:437-445 | Reads one element at offset 0 into an element-sized buffer; returns the copied value iff the copy returns code 0 and exactly the element size. |
| `Lease.ReadAt` | runtime/src/lib.rs:461-473 | Callable only with `i < len`; fails when `i * size` does not fit in `usize`; otherwise copies at offset `i * size` and returns the copied value iff the copy returns code 0 and exactly the element size. |
| `Lease.ReadRange` | runtime/src/lib.rs:485-498 | Callable with `start <= end`, or with any `end` when `start * size` overflows (the offset is computed before the subtraction); a reversed range always fails; succeeds iff `start <= end`, `start * size` and `(end - start) * size` fit in `usize` and the copy at offset `start * size` returns code 0 and exactly `(end - start) * size` bytes. |
| `Lease.Write` | runtime/src/lib.rs:511-518 | Writes the value at offset 0; succeeds iff the copy returns code 0 and exactly the element size. |
| `Lease.WriteAt` | runtime/src/lib.rs:534-543 | No bounds requirement on `i`; succeeds iff `i * size` fits in `usize` and the copy at that offset returns code 0 and exactly the element size. |
| `Lease.WriteRange` | runtime/src/lib.rs:555-568 | As `ReadRange`, writing `src`. |
| `Lease.ByteLenIsProduct` | runtime/src/lib.rs:465-466 | The byte length of `count` elements laid end to end is the product `size * count` that `checked_mul` computes. |
| `Lease.CheckedMul` | runtime/src/lib.rs:465-466 | `Some(p)` iff the byte length of `b` elements of `a` bytes fits in `usize`, and then `p` is that byte length; `None` on overflow. |
| `Lease.ByteLenAdd` | runtime/src/lib.rs:486-489 | The bytes of `a + b` elements are the bytes of the first `a` followed by the bytes of the next `b`, so a range's offset plus its byte length is the byte length up to its end. |
| `Lease.RangeWithinLease` | runtime/src/lib.rs:477-479 | Elements `start..end` with `end <= len` lie within the handle's bytes: offset plus length is at most `len * size`. |
| `Lease.ReadAtInBounds` | runtime/src/lib.rs:461-473 | On a valid handle, the offset of an in-bounds index never overflows, so `read_at` fails only when the kernel's copy fails. |
| `Lease.WriteAtInBounds` | runtime/src/lib.rs:534-543 | On a valid handle and an in-bounds index, `write_at` fails only when the kernel's copy fails. |
| `Lease.ReadRangeInBounds` | runtime/src/lib.rs:485-498 | On a valid handle and an in-bounds range, neither product overflows, so `read_range` fails only when the kernel's copy fails. |
| `Lease.WriteRangeInBounds` | runtime/src/lib.rs:555-568 | On a valid handle and an in-bounds range, `write_range` fails only when the kernel's copy fails. |
| `Lease.LenderLostAccessesFail` | runtime/src/lib.rs:431-436 | Once every copy comes back with a nonzero code (the lender restarted), every accessor returns its recoverable failure (`None` or `Err`). |
| `Dispatch.DispatchEvents` | runtime/src/lib.rs:84-126 | Receives first with mask 0. A failed receive calls `closed_recv_fail` exactly once and nothing else. An unknown operation replies 1 with no payload. A message longer than the buffer, or a reply capacity below `max_reply_size`, replies 2. The handler runs iff every check passes, and then on the decoded op and `buffer[..message_len]`. The loop replies iff the handler returns `Err(code)`, and then with that code. There is at most one reply, always to the sender and with no payload. |
| `Dispatch.DispatchNEvents` | runtime/src/lib.rs:145-191 | As `DispatchEvents`, but receives with the server's current mask, and a kernel-sent message calls `handle_notification` with exactly its operation bits and nothing else. Only the reply capacity is checked. The handler is never called for the kernel and replies never go to it. |
| `Dispatch.LoopsAgreeOnTaskMessages` | runtime/src/lib.rs:145-191 | For a failed receive, or a task's message that fits the buffer, both loops produce the same events after the receive. |
| `Dispatch.LongTaskMessagePanicsDispatchN` | runtime/src/lib.rs:166 | A task message one byte longer than an empty buffer is outside `DispatchNEvents`' precondition (the slice panics), while `dispatch` answers the same message with status 2. |
| `Dispatch.DispatchNEventsChecked` | runtime/src/lib.rs:145-191 | `dispatch_n` with `dispatch`'s buffer check (lib.rs:107) moved before the slice: defined for every message; a kernel message is forwarded as notification bits; every other outcome after the receive is exactly `dispatch`'s. |
| `Dispatch.CheckedDispatchNAgrees` | runtime/src/lib.rs:145-191 | Wherever `dispatch_n` as written does not panic, the checked version produces exactly its events. |
| `Dispatch.Dispatch` | runtime/src/lib.rs:84-126 | Appends exactly the events of `DispatchEvents` to the trace. |
| `Dispatch.DispatchN` | runtime/src/lib.rs:145-191 | Requires that a task's message fit the buffer (the slice at lib.rs:166 panics otherwise). Appends exactly the events of `DispatchNEvents` to the trace. |

## Left out

- Kernel calls (`sys_recv`, `sys_reply`, `sys_borrow_info`, `sys_borrow_read`, `sys_borrow_write`) are foreign. Their results are inputs, and replies are trace events.
- `sys_recv` copies the message into the buffer, and that copy is not modelled. The buffer's contents are whatever the receive left there.
- The server is not modelled as state. `handle` is a function of its arguments, and `recv_source()` and `current_notification_mask()` are parameters. This is because the server's own code is not part of this model.
- `RecvMessage` fields the loops do not read, such as the lease count, are left out.
- The `zerocopy` conversions (`new_zeroed`, `as_bytes`, `as_bytes_mut`) are library calls. Element values are opaque, and `T` is its byte size.
- Lease.ReadRange: the bytes copied into `dest` are not modelled. Only the status is, plus the destination's byte length passed to the copy.
- The lender's memory is not modelled, so nothing is proved about a write followed by a read returning the written value, or about two reads agreeing. Each copy's result is an input.
- A lender restart is represented only by copies that return a nonzero code or a short length. Task lifecycles are concurrency, and are left out.
- The `(PhantomData<Op>, &mut S)` pairing and the marker traits (`Attribute`, `AttributeRead`, `AttributeWrite`) are type-level machinery. They become the `Capability` tag and preconditions on the accessors.
- A read-write (`RW`) handle cannot be built in this crate. `Leased`'s fields are private (lib.rs:256-262) and no constructor produces `RW`. The tag is kept because the accessors' trait bounds admit it.
- Lease.CheckSlice: requires an element size above zero. The code divides by `size_of::<T>()` (lib.rs:324), so a zero-sized `T` has no defined result.
- Lease.ReadOnlySlice: requires an element size above zero, as `CheckSlice` does.
- Lease.WriteOnlySlice: requires an element size above zero, as `CheckSlice` does.
- Lease.ReadRange: requires `start <= end` unless `start * size` overflows. With a reversed range whose offset fits, the subtraction at lib.rs:489 underflows; when the offset overflows, lib.rs:487 returns `Err(())` first, and the model returns `Err` too.
- Lease.WriteRange: requires `start <= end` unless `start * size` overflows. With a reversed range whose offset fits, the subtraction at lib.rs:559 underflows; when the offset overflows, lib.rs:557 returns `Err(())` first, and the model returns `Err` too.
- Dispatch.DispatchN: a task's message longer than the buffer panics at lib.rs:166, so the method, which follows the code as written, makes it a precondition. `DispatchNEventsChecked` is the corrected behaviour (see Findings).
- Dispatch.DispatchNEvents: has the same precondition as `DispatchN`.
- `TaskId::KERNEL` and the `LeaseAttributes` bit values come from the kernel's user library, which is not part of this model. The model takes a 16-bit `TaskId` with the kernel at 0xFFFF, READ as bit 0 and WRITE as bit 1.

## Findings

| source | as written | input that shows it | evidently intended | confidence | as-written member | corrected member |
|---|---|---|---|---|---|---|
| runtime/src/lib.rs:166 | `dispatch_n` slices `buffer[..rm.message_len]` before any check, and `message_len` is the sender's length | a task sends a 1-byte message to a server whose buffer is empty | answer with status 2, as `dispatch` does at lib.rs:107-111 | medium, not executed | `Dispatch.DispatchNEvents` (precondition `FitsBufferUnlessKernel`), `Dispatch.LongTaskMessagePanicsDispatchN` | `Dispatch.DispatchNEventsChecked`, `Dispatch.CheckedDispatchNAgrees` |
