/** Any sequence of calls on the buffer behaves as a bounded FIFO queue of
    bytes: the unread bytes are the queue, and every call returns what the
    queue would return. */
module Fifo {
  import opened Bytes
  import opened Mirror
  import opened Cirbuf

  /** One call on the buffer. */
  datatype Op = OfferOp(d: seq<byte>) | PeekOp | PollOp(n: nat)

  /** What a call hands back: a byte count, the bytes readable through the
      returned pointer, or NULL. */
  datatype Reply = Count(n: nat) | Data(bytes: seq<byte>) | Null

  /** The queue the buffer stands for, holding at most `cap - 1` bytes: an
      offer is taken whole or not at all, a peek shows the whole queue, a
      release hands back and drops a prefix no longer than the queue. */
  function QueueStep(cap: nat, q: seq<byte>, op: Op): (seq<byte>, Reply)
  {
    match op
    case OfferOp(d) => if |q| + |d| < cap then (q + d, Count(|d|)) else (q, Count(0))
    case PeekOp => if q == [] then (q, Null) else (q, Data(q))
    case PollOp(n) => if q != [] && n <= |q| then (q[n..], Data(q[..n])) else (q, Null)
  }

  /** The queue after a run of calls, with the replies in order. */
  function QueueRun(cap: nat, q: seq<byte>, ops: seq<Op>): (seq<byte>, seq<Reply>)
    decreases |ops|
  {
    if ops == [] then (q, [])
    else
      var (q1, reply) := QueueStep(cap, q, ops[0]);
      var (q2, replies) := QueueRun(cap, q1, ops[1..]);
      (q2, [reply] + replies)
  }

  /** One call on the buffer and what the caller reads through its result. */
  function Step(b: Buffer, op: Op): (r: (Buffer, Reply))
    requires Valid(b)
    ensures Valid(r.0) && r.0.size == b.size
    ensures Contents(r.0) == QueueStep(b.size, Contents(b), op).0
    ensures r.1 == QueueStep(b.size, Contents(b), op).1
  {
    match op
    case OfferOp(d) =>
      var o := Offer(b, d);
      (o.buf, Count(o.count))
    case PeekOp =>
      (match Peek(b)
       case None => (b, Null)
       case Some(p) => (b, Data(Window(b.data, p, UsedSpace(b)))))
    case PollOp(n) =>
      var p := Poll(b, n);
      (match p.at
       case None => (p.buf, Null)
       case Some(a) => (p.buf, Data(Window(b.data, a, n))))
  }

  /** The buffer after a run of calls, with the replies in order. */
  function Run(b: Buffer, ops: seq<Op>): (r: (Buffer, seq<Reply>))
    requires Valid(b)
    ensures Valid(r.0) && r.0.size == b.size && |r.1| == |ops|
    decreases |ops|
  {
    if ops == [] then (b, [])
    else
      var (b1, reply) := Step(b, ops[0]);
      var (b2, replies) := Run(b1, ops[1..]);
      (b2, [reply] + replies)
  }

  /** Every run of the buffer refines the queue: the same replies, and the
      unread bytes are the queue's contents at the end. */
  lemma {:induction false} RunRefinesQueue(b: Buffer, ops: seq<Op>)
    requires Valid(b)
    ensures Contents(Run(b, ops).0) == QueueRun(b.size, Contents(b), ops).0
    ensures Run(b, ops).1 == QueueRun(b.size, Contents(b), ops).1
    decreases |ops|
  {
    if ops != [] {
      var b1 := Step(b, ops[0]).0;
      RunRefinesQueue(b1, ops[1..]);
    }
  }

  /** From a fresh buffer of capacity `c`, any run replies as the empty queue
      of capacity `c` does and never fills the buffer. */
  lemma {:induction false} FreshRunIsQueue(c: nat, ops: seq<Op>)
    requires 0 < c
    ensures var b := New(c).value;
      && Run(b, ops).1 == QueueRun(c, [], ops).1
      && Contents(Run(b, ops).0) == QueueRun(c, [], ops).0
      && UsedSpace(Run(b, ops).0) < c
  {
    RunRefinesQueue(New(c).value, ops);
  }
}
