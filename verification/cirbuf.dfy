/** The `cirbuf_t` state and its operations.

    A buffer is its capacity `size` (the `C` of the mirror), the read cursor
    `head`, the write cursor `tail` and the `C` bytes of backing store. The
    unread bytes are those from `head` up to `tail`, going round the end of
    the store; `head == tail` means empty, so the buffer is never allowed to
    become full and always keeps one byte of slack. */
module Cirbuf {
  import opened Bytes
  import opened Mirror

  datatype Buffer = Buffer(size: nat, head: nat, tail: nat, data: seq<byte>)

  /** Result of `cirbuf_offer`: the new state and the number of bytes taken. */
  datatype Offered = Offered(buf: Buffer, count: nat)

  /** Result of `cirbuf_poll`: the new state and the returned pointer, as a
      virtual offset into the mirrored window, or None for NULL. */
  datatype Polled = Polled(buf: Buffer, at: Option<nat>)

  /** The state invariant: a non-empty store of `size` bytes and both
      cursors normalised into `[0, size)`. */
  predicate Valid(b: Buffer)
  {
    0 < b.size && |b.data| == b.size && b.head < b.size && b.tail < b.size
  }

  /** The unread bytes in FIFO order, read the way a ring buffer without a
      mirror must: one slice, or two when they wrap past the end of the store. */
  function Contents(b: Buffer): (q: seq<byte>)
    requires Valid(b)
    ensures |q| < b.size
    ensures forall i :: 0 <= i < |q| ==> q[i] == At(b.data, b.head + i)
  {
    if b.head <= b.tail then b.data[b.head..b.tail]
    else b.data[b.head..] + b.data[..b.tail]
  }

  /** `cirbuf_new` without the mapping: a fresh buffer over a zero-filled
      store, or None when the `2C` reservation cannot exist because `C` is 0. */
  function New(size: nat): (r: Option<Buffer>)
    ensures r.None? <==> size == 0
    ensures r.Some? ==> Valid(r.value) && r.value.size == size
    ensures r.Some? ==> r.value.head == 0 && r.value.tail == 0
    ensures r.Some? ==> IsEmpty(r.value) && Contents(r.value) == []
    ensures r.Some? ==> UsedSpace(r.value) == 0 && UnusedSpace(r.value) == size
    ensures r.Some? ==> forall k :: 0 <= k < size ==> r.value.data[k] == 0
  {
    if size == 0 then None
    else Some(Buffer(size, 0, 0, seq(size, _ => 0)))
  }

  /** `cirbuf_size`: the capacity, which is the length of the store. */
  function Size(b: Buffer): (r: nat)
    requires Valid(b)
    ensures 0 < r && r == |b.data|
  {
    b.size
  }

  /** `cirbuf_is_empty`: the cursors meet exactly when nothing is unread. */
  function IsEmpty(b: Buffer): (r: bool)
    requires Valid(b)
    ensures r <==> Contents(b) == []
    ensures r <==> UsedSpace(b) == 0
  {
    b.head == b.tail
  }

  /** `cirbuf_usedspace`: the number of unread bytes, which is how far `tail`
      lies ahead of `head` going round the store. */
  function UsedSpace(b: Buffer): (r: nat)
    requires Valid(b)
    ensures r < b.size
    ensures b.head + r == b.tail || b.head + r == b.tail + b.size
    ensures r == |Contents(b)|
  {
    if b.head <= b.tail then b.tail - b.head
    else b.size - (b.head - b.tail)
  }

  /** The used space is the forward distance from `head` to `tail`, taken
      modulo the capacity. */
  lemma UsedSpaceIsModDistance(b: Buffer)
    requires Valid(b)
    ensures UsedSpace(b) == (b.tail - b.head) % b.size
  {
    if b.tail < b.head {
      ModOfNegative(b.tail - b.head, b.size);
    }
  }

  /** Euclidean remainder of a value just below zero. */
  lemma ModOfNegative(x: int, c: int)
    requires 0 < c && -c <= x < 0
    ensures x % c == x + c
  {
    assert x == c * -1 + (x + c);
  }

  /** `cirbuf_unusedspace`: room left, at least one byte and all of the store
      exactly when the buffer is empty. */
  function UnusedSpace(b: Buffer): (r: nat)
    requires Valid(b)
    ensures 0 < r <= b.size
    ensures r + UsedSpace(b) == b.size
    ensures r == b.size <==> IsEmpty(b)
  {
    b.size - UsedSpace(b)
  }

  /** The unread bytes are exactly the window `cirbuf_peek` hands out: the
      contiguous mirrored span from `head` equals the wrapped two-slice read. */
  lemma ContentsIsWindow(b: Buffer)
    requires Valid(b)
    ensures b.head + UsedSpace(b) < 2 * b.size
    ensures Window(b.data, b.head, UsedSpace(b)) == Contents(b)
  {
    WindowSplit(b.data, b.head, UsedSpace(b));
  }

  /** `cirbuf_offer`. A copy of `d` is refused, with 0 and no change, when it
      would leave no byte of slack; otherwise it lands contiguously at `tail`
      inside the `2C` window, `tail` wraps once, and `d` is appended to the
      unread bytes without touching them. */
  function Offer(b: Buffer, d: seq<byte>): (r: Offered)
    requires Valid(b)
    ensures Valid(r.buf) && r.buf.size == b.size && r.buf.head == b.head
    ensures UnusedSpace(b) <= |d| ==> r == Offered(b, 0)
    ensures b.size <= |d| ==> r == Offered(b, 0)
    ensures |d| < UnusedSpace(b) ==>
      && r.count == |d|
      && b.tail + |d| < 2 * b.size
      && r.buf.tail == (b.tail + |d|) % b.size
      && UsedSpace(r.buf) == UsedSpace(b) + |d|
      && Contents(r.buf) == Contents(b) + d
    ensures |d| < UnusedSpace(b) ==>
      forall k :: 0 <= k < b.size && !Covers(b.size, b.tail, |d|, k) ==> r.buf.data[k] == b.data[k]
  {
    if UnusedSpace(b) <= |d| then Offered(b, 0)
    else
      var data := Copy(b.data, b.tail, d);
      CopyIsWrite(b.data, b.tail, d);
      var tail := b.tail + |d|;
      var tail' := if tail >= b.size then tail % b.size else tail;
      assert tail' == Phys(b.size, tail);
      var r := Buffer(b.size, b.head, tail', data);
      var u := UsedSpace(b);
      OfferKeepsUnread(b, d, data);
      OfferLandsAfterUnread(b, d, data, b.head + u);
      ContentsAfterAppend(b, d, r, u);
      Offered(r, |d|)
  }

  /** When the store behind the old unread bytes still reads the same and the
      `n` bytes after them read `d`, the unread bytes grew by `d`. */
  lemma ContentsAfterAppend(b: Buffer, d: seq<byte>, r: Buffer, u: nat)
    requires Valid(b) && Valid(r) && r.head == b.head && r.size == b.size
    requires u == UsedSpace(b) && UsedSpace(r) == u + |d|
    requires Window(r.data, b.head, u) == Contents(b)
    requires Window(r.data, b.head + u, |d|) == d
    ensures Contents(r) == Contents(b) + d
  {
    ContentsIsWindow(r);
    WindowConcat(r.data, r.head, u, |d|);
  }

  /** The copy of an accepted offer does not reach the unread bytes. */
  lemma OfferKeepsUnread(b: Buffer, d: seq<byte>, s: seq<byte>)
    requires Valid(b) && |d| < UnusedSpace(b)
    requires s == Write(b.data, b.tail, d)
    ensures Window(s, b.head, UsedSpace(b)) == Contents(b)
  {
    var u := UsedSpace(b);
    assert Phys(b.size, b.head + u) == b.tail;
    WriteAfterWindow(b.data, b.head, u, d);
    ContentsIsWindow(b);
  }

  /** Right after the unread bytes, at offset `a` of the mirrored window,
      sits `d`. */
  lemma OfferLandsAfterUnread(b: Buffer, d: seq<byte>, s: seq<byte>, a: nat)
    requires Valid(b) && |d| < UnusedSpace(b)
    requires s == Write(b.data, b.tail, d) && a == b.head + UsedSpace(b)
    ensures a + |d| < 2 * b.size
    ensures Window(s, a, |d|) == d
  {
    assert Phys(b.size, a) == b.tail;
    WriteThenReadAt(b.data, a, d);
  }

  /** `cirbuf_peek`: NULL on an empty buffer, otherwise the offset of `head`,
      through which all unread bytes can be read contiguously. */
  function Peek(b: Buffer): (r: Option<nat>)
    requires Valid(b)
    ensures r.None? <==> IsEmpty(b)
    ensures r.Some? ==> r.value == b.head
    ensures r.Some? ==> r.value + UsedSpace(b) < 2 * b.size
    ensures r.Some? ==> Window(b.data, r.value, UsedSpace(b)) == Contents(b)
  {
    ContentsIsWindow(b);
    if IsEmpty(b) then None else Some(b.head)
  }

  /** `cirbuf_poll` with the bound its documentation promises: NULL, and no
      change, on an empty buffer or when fewer than `n` bytes are unread;
      otherwise the old `head` offset, whose first `n` bytes are the front of
      the unread bytes, and `head` advanced by `n` with one wrap. */
  function Poll(b: Buffer, n: nat): (r: Polled)
    requires Valid(b)
    ensures Valid(r.buf) && r.buf.size == b.size && r.buf.tail == b.tail && r.buf.data == b.data
    ensures r.at.None? <==> IsEmpty(b) || UsedSpace(b) < n
    ensures r.at.None? ==> r.buf == b
    ensures r.at.Some? ==>
      && r.at.value == b.head
      && b.head + n < 2 * b.size
      && r.buf.head == (b.head + n) % b.size
      && Window(b.data, b.head, n) == Contents(b)[..n]
      && UsedSpace(r.buf) == UsedSpace(b) - n
      && Contents(r.buf) == Contents(b)[n..]
  {
    if IsEmpty(b) || UsedSpace(b) < n then Polled(b, None)
    else
      var head := b.head + n;
      var head := if head >= b.size then head - b.size else head;
      var r := b.(head := head);
      PollDropsPrefix(b, n, r);
      Polled(r, Some(b.head))
  }

  /** Releasing `n <= UsedSpace` bytes hands back the first `n` unread bytes
      and leaves the rest. */
  lemma PollDropsPrefix(b: Buffer, n: nat, r: Buffer)
    requires Valid(b) && n <= UsedSpace(b)
    requires r == b.(head := Phys(b.size, b.head + n))
    ensures Valid(r) && UsedSpace(r) == UsedSpace(b) - n
    ensures Window(b.data, b.head, n) == Contents(b)[..n]
    ensures Contents(r) == Contents(b)[n..]
  {
    var c, u := b.size, UsedSpace(b);
    ContentsIsWindow(b);
    ContentsIsWindow(r);
    WindowConcat(b.data, b.head, n, u - n);
    if b.head + n >= c {
      WindowAlias(b.data, b.head + n, u - n);
    }
  }

  /** An offer of `x` into an empty buffer followed by a release of `|x|`
      bytes hands `x` back and leaves the buffer empty again. */
  lemma OfferThenPollRoundTrip(b: Buffer, x: seq<byte>)
    requires Valid(b) && IsEmpty(b) && 0 < |x| < b.size
    ensures Offer(b, x).count == |x|
    ensures var o := Offer(b, x).buf; var p := Poll(o, |x|);
      && p.at == Some(b.head)
      && Window(p.buf.data, p.at.value, |x|) == x
      && IsEmpty(p.buf) && UsedSpace(p.buf) == 0
  {
    var o := Offer(b, x).buf;
    assert Contents(o) == x;
    assert Contents(o)[..|x|] == x;
  }
}
