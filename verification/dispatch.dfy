/**
 * The generic server dispatch loops, `dispatch` and `dispatch_n`. One call
 * receives one message and disposes of it in exactly one way: it reports a
 * failed closed receive to the server, forwards notification bits
 * (`dispatch_n` only), rejects the message with a status reply, or hands it
 * to the server's handler and, if the handler returns an error code, replies
 * with that code.
 *
 * Everything the loops do to the outside world is recorded, in order, as an
 * event in a `Trace`: the receive (with its notification mask and source),
 * the calls into the server's hooks, and every `sys_reply`. What the outside
 * world answers is an input: `received` is what `sys_recv` returned (`None`
 * for an error), `handler` gives the server's `handle` result for its
 * arguments, and the interface's `from_u32` and `max_reply_size` are
 * functions.
 */
module Dispatch {
  import opened Common
  import opened Kernel

  /** Status replied when the operation code names no operation of the interface. */
  const UNKNOWN_OPERATION: U32 := 1

  /** Status replied when the message does not fit the buffer or the reply would not fit the caller's. */
  const WOULD_TRUNCATE: U32 := 2

  /** An interface's operation enumeration: decoding from `u32` and each operation's largest reply. */
  datatype Interface<!Op> = Interface(fromU32: U32 -> Option<Op>, maxReplySize: Op -> Usize)

  /** The server's `handle`: `Ok(())` if it has replied or will, `Err(code)` to have the loop reply `code`. */
  type Handler<!Op> = (Op, seq<U8>, RecvMessage) -> Result<(), U32>

  datatype Event<Op> =
    | Recv(mask: U32, source: Option<TaskId>)
    | ClosedRecvFail
    | HandleNotification(bits: U32)
    | Handle(op: Op, incoming: seq<U8>, rm: RecvMessage)
    | Reply(to: TaskId, code: U32, payload: seq<U8>)

  /** The record of everything the loops have done. */
  class Trace<Op> {
    var events: seq<Event<Op>>

    constructor ()
      ensures events == []
    {
      events := [];
    }

    method Record(e: Event<Op>)
      modifies this
      ensures events == old(events) + [e]
    {
      events := events + [e];
    }
  }

  /** The handler was called during the events `t`. */
  predicate HandlerCalled<Op>(t: seq<Event<Op>>)
  {
    exists i :: 0 <= i < |t| && t[i].Handle?
  }

  /** Some reply was sent during the events `t`. */
  predicate Replied<Op>(t: seq<Event<Op>>)
  {
    exists i :: 0 <= i < |t| && t[i].Reply?
  }

  /** No two replies were sent during the events `t`. */
  predicate AtMostOneReply<Op>(t: seq<Event<Op>>)
  {
    forall i, j :: 0 <= i < j < |t| && t[i].Reply? ==> !t[j].Reply?
  }

  /**
   * `dispatch` lets a received message through to the handler: its operation
   * code decodes, it fits in the buffer, and the caller's reply buffer can hold
   * the operation's largest reply.
   */
  predicate Admitted<Op>(bufferLen: nat, rm: RecvMessage, iface: Interface<Op>)
  {
    && iface.fromU32(rm.operation).Some?
    && rm.messageLen <= bufferLen
    && iface.maxReplySize(iface.fromU32(rm.operation).value) <= rm.responseCapacity
  }

  /** `dispatch_n` checks only the reply bound (the message has already been cut from the buffer). */
  predicate AdmittedN<Op>(rm: RecvMessage, iface: Interface<Op>)
  {
    && iface.fromU32(rm.operation).Some?
    && iface.maxReplySize(iface.fromU32(rm.operation).value) <= rm.responseCapacity
  }

  /** The events of one `dispatch` call, given what the kernel and the server answer. */
  function DispatchEvents<Op>(
    buffer: seq<U8>, source: Option<TaskId>, received: Option<RecvMessage>,
    iface: Interface<Op>, handler: Handler<Op>): (t: seq<Event<Op>>)
    // it receives first, accepting no notifications
    ensures |t| >= 2 && t[0] == Recv(0, source)
    // a failed receive is reported to the server once, and nothing else happens
    ensures received.None? <==> ClosedRecvFail in t
    ensures received.None? ==> t == [Recv(0, source), ClosedRecvFail]
    // an unknown operation is answered with status 1 and no payload
    ensures received.Some? && iface.fromU32(received.value.operation).None? ==>
      t == [Recv(0, source), Reply(received.value.sender, UNKNOWN_OPERATION, [])]
    // a message too long for the buffer, or whose reply could be cut short, is answered with status 2
    ensures (received.Some? && iface.fromU32(received.value.operation).Some? &&
             !Admitted(|buffer|, received.value, iface)) ==>
      t == [Recv(0, source), Reply(received.value.sender, WOULD_TRUNCATE, [])]
    // the handler runs exactly when the message passes every check ...
    ensures HandlerCalled(t) <==> received.Some? && Admitted(|buffer|, received.value, iface)
    // ... and then on the decoded operation and the message's bytes
    ensures forall i :: 0 <= i < |t| && t[i].Handle? ==>
      && received.Some? && Admitted(|buffer|, received.value, iface)
      && Some(t[i].op) == iface.fromU32(received.value.operation)
      && t[i].incoming == buffer[..received.value.messageLen]
      && t[i].rm == received.value
    // after the handler the loop replies exactly when the handler returned an error code, with that code
    ensures received.Some? && Admitted(|buffer|, received.value, iface) ==>
      var rm := received.value;
      var h := handler(iface.fromU32(rm.operation).value, buffer[..rm.messageLen], rm);
      (Replied(t) <==> h.Err?) && (h.Err? ==> Reply(rm.sender, h.error, []) in t)
    // on that path the handler runs once, and the error reply, if any, comes after it
    ensures received.Some? && Admitted(|buffer|, received.value, iface) ==>
      var rm := received.value;
      var op := iface.fromU32(rm.operation).value;
      var h := handler(op, buffer[..rm.messageLen], rm);
      t == [Recv(0, source), Handle(op, buffer[..rm.messageLen], rm)] +
           (if h.Err? then [Reply(rm.sender, h.error, [])] else [])
    // there is at most one reply, to the sender, with no payload
    ensures AtMostOneReply(t)
    ensures forall i :: 0 <= i < |t| && t[i].Reply? ==>
      received.Some? && t[i].to == received.value.sender && t[i].payload == []
  {
    var recv := Recv(0, source);
    match received
    case None => [recv, ClosedRecvFail]
    case Some(rm) =>
      match iface.fromU32(rm.operation)
      case None => [recv, Reply(rm.sender, UNKNOWN_OPERATION, [])]
      case Some(op) =>
        if rm.messageLen > |buffer| || rm.responseCapacity < iface.maxReplySize(op) then
          [recv, Reply(rm.sender, WOULD_TRUNCATE, [])]
        else
          var incoming := buffer[..rm.messageLen];
          var handled := [recv, Handle(op, incoming, rm)];
          assert handled[1].Handle?;
          match handler(op, incoming, rm)
          case Ok(_) => handled
          case Err(code) =>
            var replied := handled + [Reply(rm.sender, code, [])];
            assert replied[1].Handle? && replied[2].Reply?;
            replied
  }

  /**
   * `dispatch_n` takes the message out of the buffer before looking at it, so
   * a task's message longer than the buffer makes it panic: callers must not
   * let that happen.
   */
  predicate FitsBufferUnlessKernel(bufferLen: nat, received: Option<RecvMessage>)
  {
    received.Some? && received.value.sender != KERNEL ==> received.value.messageLen <= bufferLen
  }

  /** The events of one `dispatch_n` call with the server's current notification mask `mask`. */
  function DispatchNEvents<Op>(
    buffer: seq<U8>, mask: U32, source: Option<TaskId>, received: Option<RecvMessage>,
    iface: Interface<Op>, handler: Handler<Op>): (t: seq<Event<Op>>)
    requires FitsBufferUnlessKernel(|buffer|, received)
    // it receives first, accepting the notifications the server asks for
    ensures |t| >= 2 && t[0] == Recv(mask, source)
    // a failed receive is reported to the server once, and nothing else happens
    ensures received.None? <==> ClosedRecvFail in t
    ensures received.None? ==> t == [Recv(mask, source), ClosedRecvFail]
    // a message from the kernel carries notification bits, forwarded as they are, and nothing else happens
    ensures received.Some? && received.value.sender == KERNEL ==>
      t == [Recv(mask, source), HandleNotification(received.value.operation)]
    ensures (exists i :: 0 <= i < |t| && t[i].HandleNotification?) <==>
      received.Some? && received.value.sender == KERNEL
    // an unknown operation from a task is answered with status 1 and no payload
    ensures (received.Some? && received.value.sender != KERNEL &&
             iface.fromU32(received.value.operation).None?) ==>
      t == [Recv(mask, source), Reply(received.value.sender, UNKNOWN_OPERATION, [])]
    // a reply that could be cut short is answered with status 2
    ensures (received.Some? && received.value.sender != KERNEL &&
             iface.fromU32(received.value.operation).Some? && !AdmittedN(received.value, iface)) ==>
      t == [Recv(mask, source), Reply(received.value.sender, WOULD_TRUNCATE, [])]
    // the handler runs exactly when a task's message passes the checks ...
    ensures HandlerCalled(t) <==>
      received.Some? && received.value.sender != KERNEL && AdmittedN(received.value, iface)
    // ... and then on the decoded operation and the message's bytes
    ensures forall i :: 0 <= i < |t| && t[i].Handle? ==>
      && received.Some? && received.value.sender != KERNEL && AdmittedN(received.value, iface)
      && Some(t[i].op) == iface.fromU32(received.value.operation)
      && t[i].incoming == buffer[..received.value.messageLen]
      && t[i].rm == received.value
    // after the handler the loop replies exactly when the handler returned an error code, with that code
    ensures received.Some? && received.value.sender != KERNEL && AdmittedN(received.value, iface) ==>
      var rm := received.value;
      var h := handler(iface.fromU32(rm.operation).value, buffer[..rm.messageLen], rm);
      (Replied(t) <==> h.Err?) && (h.Err? ==> Reply(rm.sender, h.error, []) in t)
    // on that path the handler runs once, and the error reply, if any, comes after it
    ensures received.Some? && received.value.sender != KERNEL && AdmittedN(received.value, iface) ==>
      var rm := received.value;
      var op := iface.fromU32(rm.operation).value;
      var h := handler(op, buffer[..rm.messageLen], rm);
      t == [Recv(mask, source), Handle(op, buffer[..rm.messageLen], rm)] +
           (if h.Err? then [Reply(rm.sender, h.error, [])] else [])
    // there is at most one reply, to a task sender, with no payload
    ensures AtMostOneReply(t)
    ensures forall i :: 0 <= i < |t| && t[i].Reply? ==>
      && received.Some? && received.value.sender != KERNEL
      && t[i].to == received.value.sender && t[i].payload == []
  {
    var recv := Recv(mask, source);
    match received
    case None => [recv, ClosedRecvFail]
    case Some(rm) =>
      if rm.sender == KERNEL then
        var notified := [recv, HandleNotification(rm.operation)];
        assert notified[1].HandleNotification?;
        notified
      else
        var incoming := buffer[..rm.messageLen];
        match iface.fromU32(rm.operation)
        case None => [recv, Reply(rm.sender, UNKNOWN_OPERATION, [])]
        case Some(op) =>
          if rm.responseCapacity < iface.maxReplySize(op) then
            [recv, Reply(rm.sender, WOULD_TRUNCATE, [])]
          else
            var handled := [recv, Handle(op, incoming, rm)];
            assert handled[1].Handle?;
            match handler(op, incoming, rm)
            case Ok(_) => handled
            case Err(code) =>
              var replied := handled + [Reply(rm.sender, code, [])];
              assert replied[1].Handle? && replied[2].Reply?;
              replied
  }

  /**
   * The two loops treat a task's message that fits the buffer, and a failed
   * receive, in the same way: only the notification mask of the receive
   * differs.
   */
  lemma LoopsAgreeOnTaskMessages<Op>(
    buffer: seq<U8>, mask: U32, source: Option<TaskId>, received: Option<RecvMessage>,
    iface: Interface<Op>, handler: Handler<Op>)
    requires received.Some? ==> received.value.sender != KERNEL && received.value.messageLen <= |buffer|
    ensures DispatchNEvents(buffer, mask, source, received, iface, handler)[1..] ==
            DispatchEvents(buffer, source, received, iface, handler)[1..]
  {
  }

  /**
   * A task may send a message longer than the server's buffer: `message_len`
   * is the sender's length. `dispatch` answers such a message with status 2,
   * but `dispatch_n` cuts `buffer[..message_len]` before any check and panics.
   * Here is such a message, which `DispatchNEvents` cannot take.
   */
  lemma LongTaskMessagePanicsDispatchN<Op>(iface: Interface<Op>, handler: Handler<Op>)
    requires iface.fromU32(0).Some?
    ensures !FitsBufferUnlessKernel(0, Some(RecvMessage(0, 0, 1, 0)))
    ensures DispatchEvents([], None, Some(RecvMessage(0, 0, 1, 0)), iface, handler) ==
            [Recv(0, None), Reply(0, WOULD_TRUNCATE, [])]
  {
  }

  /**
   * `dispatch_n` with the buffer check that `dispatch` makes: a task's message
   * is sliced only once it is known to fit, and a longer one is answered with
   * status 2. Unlike `DispatchNEvents` it is defined for every message, and
   * it handles a task's message exactly as `dispatch` does.
   */
  function DispatchNEventsChecked<Op>(
    buffer: seq<U8>, mask: U32, source: Option<TaskId>, received: Option<RecvMessage>,
    iface: Interface<Op>, handler: Handler<Op>): (t: seq<Event<Op>>)
    ensures |t| >= 2 && t[0] == Recv(mask, source)
    ensures received.Some? && received.value.sender == KERNEL ==>
      t == [Recv(mask, source), HandleNotification(received.value.operation)]
    ensures received.None? || received.value.sender != KERNEL ==>
      t[1..] == DispatchEvents(buffer, source, received, iface, handler)[1..]
  {
    var recv := Recv(mask, source);
    match received
    case None => [recv, ClosedRecvFail]
    case Some(rm) =>
      if rm.sender == KERNEL then
        [recv, HandleNotification(rm.operation)]
      else
        match iface.fromU32(rm.operation)
        case None => [recv, Reply(rm.sender, UNKNOWN_OPERATION, [])]
        case Some(op) =>
          if rm.messageLen > |buffer| || rm.responseCapacity < iface.maxReplySize(op) then
            [recv, Reply(rm.sender, WOULD_TRUNCATE, [])]
          else
            var incoming := buffer[..rm.messageLen];
            match handler(op, incoming, rm)
            case Ok(_) => [recv, Handle(op, incoming, rm)]
            case Err(code) => [recv, Handle(op, incoming, rm), Reply(rm.sender, code, [])]
  }

  /** Wherever `dispatch_n` as written does not panic, the checked version does the same. */
  lemma CheckedDispatchNAgrees<Op>(
    buffer: seq<U8>, mask: U32, source: Option<TaskId>, received: Option<RecvMessage>,
    iface: Interface<Op>, handler: Handler<Op>)
    requires FitsBufferUnlessKernel(|buffer|, received)
    ensures DispatchNEventsChecked(buffer, mask, source, received, iface, handler) ==
            DispatchNEvents(buffer, mask, source, received, iface, handler)
  {
  }

  /** `dispatch`: receive one message and dispose of it. */
  method Dispatch<Op>(
    buffer: array<U8>, source: Option<TaskId>, received: Option<RecvMessage>,
    iface: Interface<Op>, handler: Handler<Op>, trace: Trace<Op>)
    modifies trace
    ensures trace.events == old(trace.events) + DispatchEvents(buffer[..], source, received, iface, handler)
  {
    trace.Record(Recv(0, source));
    if received.None? {
      trace.Record(ClosedRecvFail);
      return;
    }
    var rm := received.value;

    var decoded := iface.fromU32(rm.operation);
    if decoded.None? {
      trace.Record(Reply(rm.sender, UNKNOWN_OPERATION, []));
      return;
    }
    var op := decoded.value;

    var incomingTruncated := rm.messageLen > buffer.Length;
    var replyWouldTruncate := rm.responseCapacity < iface.maxReplySize(op);
    if incomingTruncated || replyWouldTruncate {
      trace.Record(Reply(rm.sender, WOULD_TRUNCATE, []));
      return;
    }

    var incoming := buffer[..rm.messageLen];
    trace.Record(Handle(op, incoming, rm));
    var result := handler(op, incoming, rm);
    if result.Err? {
      trace.Record(Reply(rm.sender, result.error, []));
    }
  }

  /** `dispatch_n`: receive one message or notification, with the server's current mask, and dispose of it. */
  method DispatchN<Op>(
    buffer: array<U8>, mask: U32, source: Option<TaskId>, received: Option<RecvMessage>,
    iface: Interface<Op>, handler: Handler<Op>, trace: Trace<Op>)
    requires FitsBufferUnlessKernel(buffer.Length, received)
    modifies trace
    ensures trace.events == old(trace.events) + DispatchNEvents(buffer[..], mask, source, received, iface, handler)
  {
    trace.Record(Recv(mask, source));
    if received.None? {
      trace.Record(ClosedRecvFail);
      return;
    }
    var rm := received.value;

    if rm.sender == KERNEL {
      trace.Record(HandleNotification(rm.operation));
      return;
    }

    var incoming := buffer[..rm.messageLen];

    var decoded := iface.fromU32(rm.operation);
    if decoded.None? {
      trace.Record(Reply(rm.sender, UNKNOWN_OPERATION, []));
      return;
    }
    var op := decoded.value;

    if rm.responseCapacity < iface.maxReplySize(op) {
      trace.Record(Reply(rm.sender, WOULD_TRUNCATE, []));
      return;
    }

    trace.Record(Handle(op, incoming, rm));
    var result := handler(op, incoming, rm);
    if result.Err? {
      trace.Record(Reply(rm.sender, result.error, []));
    }
  }
}
