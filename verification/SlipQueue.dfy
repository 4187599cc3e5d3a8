/**
 The output queue of tools/tunslip.c: slip_send appends to slip_buf, slip_flushbuf writes
 from slip_begin and may write only part, or nothing.
 */
module SlipQueue {
  import opened Bytes

  const SIZE := 2000

  type Buffer = b: bytes | |b| == SIZE witness seq(SIZE, _ => 0)

  datatype Queue = Queue(buf: Buffer, begin: nat, end: nat)

  ghost predicate InRange(q: Queue) {
    q.begin <= q.end <= SIZE && (q.begin == q.end ==> q.begin == 0)
  }

  function Pending(q: Queue): bytes
    requires InRange(q)
  {
    q.buf[q.begin..q.end]
  }

  function Push(q: Queue, c: u8): Queue
    requires q.end < SIZE
  {
    Queue(q.buf[q.end := c], q.begin, q.end + 1)
  }

  /** `wrote` is what write(2) returned; -1 is a refused write. */
  function Flushed(q: Queue, wrote: int): Queue
    requires InRange(q) && -1 <= wrote <= q.end - q.begin
  {
    if q.end == 0 || wrote == -1 then q
    else if q.begin + wrote == q.end then Queue(q.buf, 0, 0)
    else Queue(q.buf, q.begin + wrote, q.end)
  }

  datatype Op = Send(c: u8) | Flush(wrote: int)

  predicate Allowed(q: Queue, op: Op) {
    match op
    case Send(_) => q.end < SIZE
    case Flush(wrote) => -1 <= wrote <= q.end - q.begin
  }

  function Apply(q: Queue, op: Op): (Queue, bytes)
    requires InRange(q) && Allowed(q, op)
  {
    match op
    case Send(c) => (Push(q, c), [])
    case Flush(wrote) => (Flushed(q, wrote), if wrote <= 0 then [] else Pending(q)[..wrote])
  }

  /** One operation: the wire gains what pending loses at the front, pending gains what is sent. */
  lemma ApplyIsFifo(q: Queue, op: Op)
    requires InRange(q) && Allowed(q, op)
    ensures var (r, wire) := Apply(q, op);
            InRange(r) && wire + Pending(r) == Pending(q) + if op.Send? then [op.c] else []
  {
  }

  ghost predicate AllowedRun(q: Queue, ops: seq<Op>)
    requires InRange(q)
    decreases |ops|
  {
    ops == [] || (Allowed(q, ops[0]) && (ApplyIsFifo(q, ops[0]); AllowedRun(Apply(q, ops[0]).0, ops[1..])))
  }

  function Sent(ops: seq<Op>): bytes {
    if ops == [] then [] else (if ops[0].Send? then [ops[0].c] else []) + Sent(ops[1..])
  }

  ghost function Run(q: Queue, ops: seq<Op>): (r: (Queue, bytes))
    requires InRange(q) && AllowedRun(q, ops)
    ensures InRange(r.0)
    decreases |ops|
  {
    if ops == [] then (q, []) else
    ApplyIsFifo(q, ops[0]);
    var (r, wire) := Apply(q, ops[0]);
    var (s, more) := Run(r, ops[1..]);
    (s, wire + more)
  }

  lemma FifoChain(wire: bytes, mid: bytes, start: bytes, sent: bytes, more: bytes, last: bytes, rest: bytes)
    requires wire + mid == start + sent && more + last == mid + rest
    ensures (wire + more) + last == start + (sent + rest)
  {
    assert (wire + more) + last == wire + (mid + rest) == (wire + mid) + rest;
    assert (start + sent) + rest == start + (sent + rest);
  }

  /** Under every interleaving of sends and partial, full or refused writes, the bytes on the
      wire followed by the pending bytes are the bytes sent, in order. */
  lemma {:induction false} QueueIsFifo(q: Queue, ops: seq<Op>)
    requires InRange(q) && AllowedRun(q, ops)
    ensures var (r, wire) := Run(q, ops);
            InRange(r) && wire + Pending(r) == Pending(q) + Sent(ops)
    decreases |ops|
  {
    if ops == [] {
    } else {
      ApplyIsFifo(q, ops[0]);
      var (r, wire) := Apply(q, ops[0]);
      QueueIsFifo(r, ops[1..]);
      var (s, more) := Run(r, ops[1..]);
      var first := if ops[0].Send? then [ops[0].c] else [];
      FifoChain(wire, Pending(r), Pending(q), first, more, Pending(s), Sent(ops[1..]));
    }
  }
}
