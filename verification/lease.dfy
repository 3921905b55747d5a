/**
 * `Leased`: a server's handle on memory that a client task lends it for the
 * duration of one exchange. The handle is validated once, when it is built,
 * against what the kernel reports about the lease; every access afterwards
 * goes back to the kernel and succeeds only if the kernel copies exactly the
 * expected number of bytes, because the lender may have been restarted in
 * between.
 *
 * The element type `T` of `Leased<A, T>` and `Leased<A, [T]>` is represented
 * by its size in bytes (`elemSize`); the values copied are opaque. The kernel
 * calls are parameters: `sys_borrow_info` is a function of the lender and the
 * lease index, and `sys_borrow_read`/`sys_borrow_write` are functions of the
 * request they are given, so each result records exactly which call was made.
 */
module Lease {
  import opened Common
  import opened Kernel

  /** The access markers `R`, `W` and `RW`, as a tag. */
  datatype Capability = R | W | RW

  /** `AttributeRead`: the capabilities that may read. */
  predicate CanRead(cap: Capability)
  {
    cap.R? || cap.RW?
  }

  /** `AttributeWrite`: the capabilities that may write. */
  predicate CanWrite(cap: Capability)
  {
    cap.W? || cap.RW?
  }

  /** The lease attributes a capability needs the lender to have granted. */
  function Needs(cap: Capability): Attributes
  {
    match cap
    case R => READ
    case W => WRITE
    case RW => READ | WRITE
  }

  /**
   * A lender's attributes satisfy a capability exactly when they grant read
   * access if the capability reads, and write access if it writes.
   */
  lemma NeedsReadAndWrite(cap: Capability, have: Attributes)
    ensures Contains(have, Needs(cap)) <==>
      (CanRead(cap) ==> Contains(have, READ)) && (CanWrite(cap) ==> Contains(have, WRITE))
  {
  }

  /** Whether a handle stands for one `T` or for a slice `[T]`. */
  datatype Shape = Single | Slice

  /**
   * A lease handle: who lent the memory, the lease's index in the lender's
   * table, and the number of elements validated at construction (`len`; 1
   * for a single value). `lender()`, `lease_index()` and `len()` are the
   * fields `lender`, `index` and `len`.
   */
  datatype Leased = Leased(
    cap: Capability,
    shape: Shape,
    elemSize: Usize,
    lender: TaskId,
    index: Usize,
    len: Usize)
  {
    /** `is_empty`, available on slices only. */
    predicate IsEmpty()
      requires shape.Slice?
    {
      len == 0
    }
  }

  /** The number of bytes that `count` elements of `size` bytes occupy, laid end to end. */
  function ByteLen(count: nat, size: nat): nat
  {
    if count == 0 then 0 else ByteLen(count - 1, size) + size
  }

  /** Two runs of elements laid end to end take the bytes of both. */
  lemma {:induction false} ByteLenAdd(a: nat, b: nat, size: nat)
    ensures ByteLen(a + b, size) == ByteLen(a, size) + ByteLen(b, size)
  {
    if b > 0 {
      ByteLenAdd(a, b - 1, size);
    }
  }

  /** The byte length of `count` elements is the product that `checked_mul` computes. */
  lemma {:induction false} ByteLenIsProduct(count: nat, size: nat)
    ensures ByteLen(count, size) == count * size
  {
    if count > 0 {
      ByteLenIsProduct(count - 1, size);
      MulSub(count, 1, size);
    }
  }

  /** A product of `size` leaves no remainder when divided by `size`. */
  lemma QuotientOfProduct(n: nat, size: nat)
    requires size > 0
    ensures (n * size) % size == 0 && (n * size) / size == n
  {
    var x := n * size;
    var q, m := x / size, x % size;
    assert x == size * q + m && 0 <= m < size;
    MulSub(n, q, size);
    if q < n {
      MulAtLeastOne(n - q, size);
    } else if q > n {
      MulAtLeastOne(q - n, size);
      MulSub(q, n, size);
    }
  }

  /** Multiplication distributes over subtraction. */
  lemma MulSub(a: int, b: int, s: int)
    ensures (a - b) * s == a * s - b * s
  {
  }

  /** At least one copy of `s` is at least `s`. */
  lemma MulAtLeastOne(k: int, s: nat)
    requires k >= 1
    ensures k * s >= s
  {
  }

  /**
   * A byte length holds a whole number `n` of elements exactly when it is a
   * multiple of the element size, and then `n` is the quotient.
   */
  lemma ExactCount(bytes: nat, size: nat)
    requires size > 0
    ensures forall n: nat {:trigger ByteLen(n, size)} ::
      ByteLen(n, size) == bytes <==> bytes % size == 0 && n == bytes / size
  {
    forall n: nat
      ensures ByteLen(n, size) == bytes <==> bytes % size == 0 && n == bytes / size
    {
      ByteLenIsProduct(n, size);
      if ByteLen(n, size) == bytes {
        QuotientOfProduct(n, size);
      }
    }
  }

  /**
   * The lease the kernel reports can back a handle of `n` elements of `size`
   * bytes with the `required` attributes: it exists, grants those attributes
   * and is exactly `n` elements long.
   */
  predicate Fits(info: Option<BorrowInfo>, required: Attributes, size: Usize, n: nat)
  {
    info.Some? && Contains(info.value.attributes, required) && ByteLen(n, size) == info.value.len
  }

  /** `n` respects an optional maximum element count. */
  predicate WithinMax(n: nat, maxLen: Option<NonZeroU32>)
  {
    maxLen.None? || n <= maxLen.value
  }

  /** The guarantees a handle carries about the lease it was built from. */
  predicate Valid(l: Leased, info: BorrowInfo)
  {
    && Contains(info.attributes, Needs(l.cap))
    && ByteLen(l.len, l.elemSize) == info.len
    && (l.shape.Single? ==> l.len == 1)
    && (l.shape.Slice? ==> l.elemSize > 0)
  }

  /** `sys_borrow_info(lender, index)`. */
  type BorrowInfoCall = (TaskId, Usize) -> Option<BorrowInfo>

  /** `check_sized`: the lease holds exactly one `T` and grants `required`. */
  function CheckSized(
    lender: TaskId, index: Usize, required: Attributes, size: Usize,
    borrowInfo: BorrowInfoCall): (r: Option<()>)
    ensures r.Some? <==> Fits(borrowInfo(lender, index), required, size, 1)
  {
    var info := borrowInfo(lender, index);
    assert ByteLen(1, size) == size;
    if info.None? then None
    else if !Contains(info.value.attributes, required) then None
    else if info.value.len != size then None
    else Some(())
  }

  /**
   * `check_slice`: the lease grants `required` and holds a whole number of
   * `T`, no more than `maxLen` of them; that number is the result, and it is
   * the only count for which the lease fits.
   */
  function CheckSlice(
    lender: TaskId, index: Usize, required: Attributes, maxLen: Option<NonZeroU32>,
    size: Usize, borrowInfo: BorrowInfoCall): (r: Option<Usize>)
    requires size > 0
    ensures r.Some? ==>
      Fits(borrowInfo(lender, index), required, size, r.value) && WithinMax(r.value, maxLen)
    ensures forall n: nat {:trigger Fits(borrowInfo(lender, index), required, size, n)} ::
      Fits(borrowInfo(lender, index), required, size, n) && WithinMax(n, maxLen) ==> r == Some(n)
  {
    var info := borrowInfo(lender, index);
    if info.None? then None
    else if !Contains(info.value.attributes, required) then None
    else
      ExactCount(info.value.len, size);
      if info.value.len % size != 0 then None
      else
        var len := info.value.len / size;
        if maxLen.Some? && len > maxLen.value then None
        else Some(len)
  }

  /** `Leased<R, T>::read_only`. */
  function ReadOnly(lender: TaskId, index: Usize, size: Usize, borrowInfo: BorrowInfoCall): (r: Option<Leased>)
    ensures r.Some? <==> Fits(borrowInfo(lender, index), READ, size, 1)
    ensures r.Some? ==> r.value == Leased(R, Single, size, lender, index, 1)
    ensures r.Some? ==> Valid(r.value, borrowInfo(lender, index).value)
  {
    match CheckSized(lender, index, READ, size, borrowInfo)
    case None => None
    case Some(_) => Some(Leased(R, Single, size, lender, index, 1))
  }

  /** `Leased<W, T>::write_only`. */
  function WriteOnly(lender: TaskId, index: Usize, size: Usize, borrowInfo: BorrowInfoCall): (r: Option<Leased>)
    ensures r.Some? <==> Fits(borrowInfo(lender, index), WRITE, size, 1)
    ensures r.Some? ==> r.value == Leased(W, Single, size, lender, index, 1)
    ensures r.Some? ==> Valid(r.value, borrowInfo(lender, index).value)
  {
    match CheckSized(lender, index, WRITE, size, borrowInfo)
    case None => None
    case Some(_) => Some(Leased(W, Single, size, lender, index, 1))
  }

  /** `Leased<R, [T]>::read_only_slice`. */
  function ReadOnlySlice(
    lender: TaskId, index: Usize, maxLen: Option<NonZeroU32>, size: Usize,
    borrowInfo: BorrowInfoCall): (r: Option<Leased>)
    requires size > 0
    ensures r.Some? ==>
      && r.value == Leased(R, Slice, size, lender, index, r.value.len)
      && Fits(borrowInfo(lender, index), READ, size, r.value.len)
      && WithinMax(r.value.len, maxLen)
      && Valid(r.value, borrowInfo(lender, index).value)
    ensures forall n: nat {:trigger Fits(borrowInfo(lender, index), READ, size, n)} ::
      Fits(borrowInfo(lender, index), READ, size, n) && WithinMax(n, maxLen) ==> r.Some? && r.value.len == n
  {
    match CheckSlice(lender, index, READ, maxLen, size, borrowInfo)
    case None => None
    case Some(len) => Some(Leased(R, Slice, size, lender, index, len))
  }

  /** `Leased<W, [T]>::write_only_slice`. */
  function WriteOnlySlice(
    lender: TaskId, index: Usize, maxLen: Option<NonZeroU32>, size: Usize,
    borrowInfo: BorrowInfoCall): (r: Option<Leased>)
    requires size > 0
    ensures r.Some? ==>
      && r.value == Leased(W, Slice, size, lender, index, r.value.len)
      && Fits(borrowInfo(lender, index), WRITE, size, r.value.len)
      && WithinMax(r.value.len, maxLen)
      && Valid(r.value, borrowInfo(lender, index).value)
    ensures forall n: nat {:trigger Fits(borrowInfo(lender, index), WRITE, size, n)} ::
      Fits(borrowInfo(lender, index), WRITE, size, n) && WithinMax(n, maxLen) ==> r.Some? && r.value.len == n
  {
    match CheckSlice(lender, index, WRITE, maxLen, size, borrowInfo)
    case None => None
    case Some(len) => Some(Leased(W, Slice, size, lender, index, len))
  }

  /** A slice handle is empty exactly when the lease it was built from has no bytes. */
  lemma SliceEmptyIffNoBytes(l: Leased, info: BorrowInfo)
    requires l.shape.Slice? && Valid(l, info)
    ensures l.IsEmpty() <==> info.len == 0
  {
    if l.len > 0 {
      ByteLenAdd(l.len - 1, 1, l.elemSize);
    }
  }

  // ---------------------------------------------------------------------------
  // Accessors

  /**
   * The arguments of one `sys_borrow_read` or `sys_borrow_write`: the lease,
   * the byte offset into it, and the length in bytes of the local buffer.
   */
  datatype Borrow = Borrow(lender: TaskId, index: Usize, offset: Usize, bufLen: nat)

  /** A raw copy's response code and the number of bytes it copied. */
  datatype Raw = Raw(rc: U32, len: Usize)

  /** What `sys_borrow_read` returns, together with the value that landed in the buffer. */
  datatype ReadReply<T> = ReadReply(raw: Raw, value: T)

  /** The success rule shared by every accessor: code 0 and exactly the expected byte count. */
  predicate Copied(raw: Raw, expected: nat)
  {
    raw.rc == 0 && raw.len == expected
  }

  /** `usize::checked_mul`. */
  function CheckedMul(a: Usize, b: Usize): (r: Option<Usize>)
    ensures r.Some? <==> ByteLen(b, a) < USIZE_LIMIT
    ensures r.Some? ==> r.value == ByteLen(b, a)
  {
    ByteLenIsProduct(b, a);
    if a * b < USIZE_LIMIT then Some(a * b) else None
  }

  /** `read`: copy the whole single-value lease. */
  function Read<T>(l: Leased, sysRead: Borrow -> ReadReply<T>): (r: Option<T>)
    requires CanRead(l.cap) && l.shape.Single?
    ensures r.Some? <==> Copied(sysRead(Borrow(l.lender, l.index, 0, l.elemSize)).raw, l.elemSize)
    ensures r.Some? ==> r.value == sysRead(Borrow(l.lender, l.index, 0, l.elemSize)).value
  {
    var reply := sysRead(Borrow(l.lender, l.index, 0, l.elemSize));
    if reply.raw.rc != 0 || reply.raw.len != l.elemSize then None
    else Some(reply.value)
  }

  /** `read_at`: copy element `i`; an index past the end is a panic, so callers must not pass one. */
  function ReadAt<T>(l: Leased, i: Usize, sysRead: Borrow -> ReadReply<T>): (r: Option<T>)
    requires CanRead(l.cap) && l.shape.Slice?
    requires i < l.len
    ensures r.Some? <==>
      && ByteLen(i, l.elemSize) < USIZE_LIMIT
      && Copied(sysRead(Borrow(l.lender, l.index, ByteLen(i, l.elemSize), l.elemSize)).raw, l.elemSize)
    ensures r.Some? ==>
      r.value == sysRead(Borrow(l.lender, l.index, ByteLen(i, l.elemSize), l.elemSize)).value
  {
    match CheckedMul(l.elemSize, i)
    case None => None
    case Some(offset) =>
      var reply := sysRead(Borrow(l.lender, l.index, offset, l.elemSize));
      if reply.raw.rc != 0 || reply.raw.len != l.elemSize then None
      else Some(reply.value)
  }

  /**
   * `read_range`: copy elements `start..end` into a destination of `destLen`
   * elements. What lands in the destination is not modelled; the result says
   * whether the copy succeeded.
   */
  function ReadRange(
    l: Leased, start: Usize, end: Usize, destLen: nat, sysRead: Borrow -> Raw): (r: Result<(), ()>)
    requires CanRead(l.cap) && l.shape.Slice?
    // the offset is computed first, so a reversed range is reached only when that multiplication fits
    requires start <= end || ByteLen(start, l.elemSize) >= USIZE_LIMIT
    ensures start > end ==> r.Err?
    ensures r.Ok? <==>
      && start <= end
      && ByteLen(start, l.elemSize) < USIZE_LIMIT
      && ByteLen(end - start, l.elemSize) < USIZE_LIMIT
      && Copied(sysRead(Borrow(l.lender, l.index, ByteLen(start, l.elemSize), ByteLen(destLen, l.elemSize))),
                ByteLen(end - start, l.elemSize))
  {
    match CheckedMul(l.elemSize, start)
    case None => Err(())
    case Some(offset) =>
      match CheckedMul(l.elemSize, end - start)
      case None => Err(())
      case Some(expected) =>
        var raw := sysRead(Borrow(l.lender, l.index, offset, ByteLen(destLen, l.elemSize)));
        if raw.rc != 0 || raw.len != expected then Err(()) else Ok(())
  }

  /** `write`: copy `value` over the whole single-value lease. */
  function Write<T>(l: Leased, value: T, sysWrite: (Borrow, T) -> Raw): (r: Result<(), ()>)
    requires CanWrite(l.cap) && l.shape.Single?
    ensures r.Ok? <==> Copied(sysWrite(Borrow(l.lender, l.index, 0, l.elemSize), value), l.elemSize)
  {
    var raw := sysWrite(Borrow(l.lender, l.index, 0, l.elemSize), value);
    if raw.rc != 0 || raw.len != l.elemSize then Err(()) else Ok(())
  }

  /** `write_at`: copy `value` over element `i`. Unlike `read_at`, the index is not checked against `len`. */
  function WriteAt<T>(l: Leased, i: Usize, value: T, sysWrite: (Borrow, T) -> Raw): (r: Result<(), ()>)
    requires CanWrite(l.cap) && l.shape.Slice?
    ensures r.Ok? <==>
      && ByteLen(i, l.elemSize) < USIZE_LIMIT
      && Copied(sysWrite(Borrow(l.lender, l.index, ByteLen(i, l.elemSize), l.elemSize), value), l.elemSize)
  {
    match CheckedMul(l.elemSize, i)
    case None => Err(())
    case Some(offset) =>
      var raw := sysWrite(Borrow(l.lender, l.index, offset, l.elemSize), value);
      if raw.rc != 0 || raw.len != l.elemSize then Err(()) else Ok(())
  }

  /** `write_range`: copy `src` over elements `start..end`. */
  function WriteRange<T>(
    l: Leased, start: Usize, end: Usize, src: seq<T>, sysWrite: (Borrow, seq<T>) -> Raw): (r: Result<(), ()>)
    requires CanWrite(l.cap) && l.shape.Slice?
    // the offset is computed first, so a reversed range is reached only when that multiplication fits
    requires start <= end || ByteLen(start, l.elemSize) >= USIZE_LIMIT
    ensures start > end ==> r.Err?
    ensures r.Ok? <==>
      && start <= end
      && ByteLen(start, l.elemSize) < USIZE_LIMIT
      && ByteLen(end - start, l.elemSize) < USIZE_LIMIT
      && Copied(sysWrite(Borrow(l.lender, l.index, ByteLen(start, l.elemSize), ByteLen(|src|, l.elemSize)), src),
                ByteLen(end - start, l.elemSize))
  {
    match CheckedMul(l.elemSize, start)
    case None => Err(())
    case Some(offset) =>
      match CheckedMul(l.elemSize, end - start)
      case None => Err(())
      case Some(expected) =>
        var raw := sysWrite(Borrow(l.lender, l.index, offset, ByteLen(|src|, l.elemSize)), src);
        if raw.rc != 0 || raw.len != expected then Err(()) else Ok(())
  }

  // ---------------------------------------------------------------------------
  // Properties of the accessors

  /**
   * Elements `start..end` of a handle of `len` elements, with `end` no
   * further than `len`, lie inside the handle's bytes: their offset plus their
   * length is at most the byte length of all `len` elements.
   */
  lemma RangeWithinLease(size: nat, len: nat, start: nat, end: nat)
    requires start <= end <= len
    ensures ByteLen(start, size) + ByteLen(end - start, size) <= ByteLen(len, size)
  {
    ByteLenAdd(start, end - start, size);
    ByteLenAdd(end, len - end, size);
  }

  /** On a valid handle, `read_at` in bounds fails only when the kernel's copy does. */
  lemma ReadAtInBounds<T>(l: Leased, info: BorrowInfo, i: Usize, sysRead: Borrow -> ReadReply<T>)
    requires CanRead(l.cap) && l.shape.Slice? && Valid(l, info)
    requires i < l.len
    ensures ByteLen(i, l.elemSize) < USIZE_LIMIT
    ensures ReadAt(l, i, sysRead).Some? <==>
      Copied(sysRead(Borrow(l.lender, l.index, ByteLen(i, l.elemSize), l.elemSize)).raw, l.elemSize)
  {
    assert ByteLen(i, l.elemSize) < USIZE_LIMIT by {
      RangeWithinLease(l.elemSize, l.len, i, i + 1);
    }
    assert CheckedMul(l.elemSize, i) == Some(ByteLen(i, l.elemSize));
  }

  /** On a valid handle, `write_at` in bounds fails only when the kernel's copy does. */
  lemma WriteAtInBounds<T>(l: Leased, info: BorrowInfo, i: Usize, value: T, sysWrite: (Borrow, T) -> Raw)
    requires CanWrite(l.cap) && l.shape.Slice? && Valid(l, info)
    requires i < l.len
    ensures ByteLen(i, l.elemSize) < USIZE_LIMIT
    ensures WriteAt(l, i, value, sysWrite).Ok? <==>
      Copied(sysWrite(Borrow(l.lender, l.index, ByteLen(i, l.elemSize), l.elemSize), value), l.elemSize)
  {
    assert ByteLen(i, l.elemSize) < USIZE_LIMIT by {
      RangeWithinLease(l.elemSize, l.len, i, i + 1);
    }
    assert CheckedMul(l.elemSize, i) == Some(ByteLen(i, l.elemSize));
  }

  /** On a valid handle, `read_range` within bounds fails only when the kernel's copy does. */
  lemma ReadRangeInBounds(l: Leased, info: BorrowInfo, start: Usize, end: Usize, destLen: nat, sysRead: Borrow -> Raw)
    requires CanRead(l.cap) && l.shape.Slice? && Valid(l, info)
    requires start <= end <= l.len
    ensures ByteLen(start, l.elemSize) < USIZE_LIMIT && ByteLen(end - start, l.elemSize) < USIZE_LIMIT
    ensures ReadRange(l, start, end, destLen, sysRead).Ok? <==>
      Copied(sysRead(Borrow(l.lender, l.index, ByteLen(start, l.elemSize), ByteLen(destLen, l.elemSize))),
             ByteLen(end - start, l.elemSize))
  {
    assert ByteLen(start, l.elemSize) < USIZE_LIMIT && ByteLen(end - start, l.elemSize) < USIZE_LIMIT by {
      RangeWithinLease(l.elemSize, l.len, start, end);
    }
    assert CheckedMul(l.elemSize, start) == Some(ByteLen(start, l.elemSize));
    assert CheckedMul(l.elemSize, end - start) == Some(ByteLen(end - start, l.elemSize));
  }

  /** On a valid handle, `write_range` within bounds fails only when the kernel's copy does. */
  lemma WriteRangeInBounds<T>(l: Leased, info: BorrowInfo, start: Usize, end: Usize, src: seq<T>, sysWrite: (Borrow, seq<T>) -> Raw)
    requires CanWrite(l.cap) && l.shape.Slice? && Valid(l, info)
    requires start <= end <= l.len
    ensures ByteLen(start, l.elemSize) < USIZE_LIMIT && ByteLen(end - start, l.elemSize) < USIZE_LIMIT
    ensures WriteRange(l, start, end, src, sysWrite).Ok? <==>
      Copied(sysWrite(Borrow(l.lender, l.index, ByteLen(start, l.elemSize), ByteLen(|src|, l.elemSize)), src),
             ByteLen(end - start, l.elemSize))
  {
    assert ByteLen(start, l.elemSize) < USIZE_LIMIT && ByteLen(end - start, l.elemSize) < USIZE_LIMIT by {
      RangeWithinLease(l.elemSize, l.len, start, end);
    }
    assert CheckedMul(l.elemSize, start) == Some(ByteLen(start, l.elemSize));
    assert CheckedMul(l.elemSize, end - start) == Some(ByteLen(end - start, l.elemSize));
  }

  /**
   * The lender restarted after the handle was validated: from then on the
   * kernel answers every copy with a nonzero code, and every accessor reports
   * the recoverable failure, whatever handle and arguments it is given.
   */
  lemma LenderLostAccessesFail<T>(
    l: Leased, i: Usize, start: Usize, end: Usize, value: T, values: seq<T>,
    sysRead: Borrow -> ReadReply<T>, sysReadRange: Borrow -> Raw,
    sysWrite: (Borrow, T) -> Raw, sysWriteRange: (Borrow, seq<T>) -> Raw)
    requires forall b :: sysRead(b).raw.rc != 0
    requires forall b :: sysReadRange(b).rc != 0
    requires forall b :: sysWrite(b, value).rc != 0
    requires forall b :: sysWriteRange(b, values).rc != 0
    requires start <= end || ByteLen(start, l.elemSize) >= USIZE_LIMIT
    ensures CanRead(l.cap) && l.shape.Single? ==> Read(l, sysRead).None?
    ensures CanRead(l.cap) && l.shape.Slice? && i < l.len ==> ReadAt(l, i, sysRead).None?
    ensures CanRead(l.cap) && l.shape.Slice? ==> ReadRange(l, start, end, |values|, sysReadRange).Err?
    ensures CanWrite(l.cap) && l.shape.Single? ==> Write(l, value, sysWrite).Err?
    ensures CanWrite(l.cap) && l.shape.Slice? ==> WriteAt(l, i, value, sysWrite).Err?
    ensures CanWrite(l.cap) && l.shape.Slice? ==> WriteRange(l, start, end, values, sysWriteRange).Err?
  {
  }
}
