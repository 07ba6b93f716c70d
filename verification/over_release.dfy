/** `cirbuf_poll` as the source has it. Its documentation promises NULL
    "if we can not poll this much data", but the code only checks for an
    empty buffer, so a release longer than the unread bytes moves `head`
    past `tail`. `Cirbuf.Poll` is the corrected operation. */
module OverRelease {
  import opened Bytes
  import opened Mirror
  import opened Cirbuf

  /** `cirbuf_poll` as written: NULL only on an empty buffer; otherwise the
      old `head` offset, and `head` advanced by `n` with one subtraction. */
  function PollAsWritten(b: Buffer, n: nat): (r: Polled)
    requires Valid(b)
    ensures r.buf.size == b.size && r.buf.tail == b.tail && r.buf.data == b.data
    ensures r.at.None? <==> IsEmpty(b)
    ensures r.at.None? ==> r.buf == b
    ensures r.at.Some? ==> r.at.value == b.head
    ensures n <= UsedSpace(b) ==> r == Poll(b, n)
  {
    if IsEmpty(b) then Polled(b, None)
    else
      var head := b.head + n;
      var head := if head >= b.size then head - b.size else head;
      Polled(b.(head := head), Some(b.head))
  }

  /** Releasing more than is unread, but less than the capacity, makes the
      buffer claim `size + used - n` unread bytes, where the corrected poll
      refuses with NULL. `head` moves to `(head + n) % size`. The first
      `size - n` claimed bytes are store bytes outside the old unread span:
      never offered, or already released. The last
      `used` are the very bytes this poll just handed out. */
  lemma InventsData(b: Buffer, n: nat)
    requires Valid(b) && !IsEmpty(b) && UsedSpace(b) < n < b.size
    ensures var r := PollAsWritten(b, n).buf;
      && Valid(r) && !IsEmpty(r) && r.head == Phys(b.size, b.head + n)
      && UsedSpace(r) == b.size + UsedSpace(b) - n
      && Contents(r)[b.size - n..] == Contents(b)
    ensures Poll(b, n).at.None? && Poll(b, n).buf == b
  {
    var r := PollAsWritten(b, n).buf;
    var c, u := b.size, UsedSpace(b);
    var q, q' := Contents(b), Contents(r);
    assert |q'| == c + u - n;
    forall j | 0 <= j < u
      ensures q'[c - n + j] == q[j]
    {
      assert q'[c - n + j] == At(r.data, r.head + (c - n + j));
      assert q[j] == At(b.data, b.head + j);
      if b.head + n < c {
        assert r.head + (c - n + j) == b.head + j + c;
      } else {
        assert r.head + (c - n + j) == b.head + j;
      }
    }
  }

  /** Releasing from `size` up to `2 * size - head` bytes laps the buffer
      once: `head` lands `n - size` bytes on, the buffer stays valid, and it
      is empty exactly when `n` is `size` plus the unread bytes. Up to that
      point the release acts as a release of `n - size` bytes; beyond it the
      buffer claims `2 * size + used - n` unread bytes. */
  lemma Laps(b: Buffer, n: nat)
    requires Valid(b) && !IsEmpty(b) && b.size <= n < 2 * b.size - b.head
    ensures var r := PollAsWritten(b, n).buf;
      && Valid(r) && r.head == b.head + n - b.size
      && (IsEmpty(r) <==> n == b.size + UsedSpace(b))
      && (n <= b.size + UsedSpace(b) ==> r == Poll(b, n - b.size).buf)
      && (b.size + UsedSpace(b) < n ==> UsedSpace(r) == 2 * b.size + UsedSpace(b) - n)
    ensures Poll(b, n).at.None? && Poll(b, n).buf == b
  {
  }

  /** Releasing `2 * size - head` bytes or more leaves `head` outside the
      store, breaking the cursor invariant. */
  lemma BreaksCursor(b: Buffer, n: nat)
    requires Valid(b) && !IsEmpty(b) && 2 * b.size - b.head <= n
    ensures PollAsWritten(b, n).buf.head == b.head + n - b.size >= b.size
    ensures !Valid(PollAsWritten(b, n).buf)
  {
  }

  /** The tests' capacity of 65536 bytes, with the one byte 7 unread at
      offset 0: releasing 3 bytes leaves the buffer claiming 65534 unread
      bytes, the last of them the 7 just handed out; releasing 65537 laps
      round to an empty buffer; releasing 131072 pushes `head` to 65536. */
  lemma AtTestCapacity(s: seq<byte>)
    requires |s| == 65536 && s[0] == 7
    ensures var b := Buffer(65536, 0, 1, s);
      && Valid(b) && Contents(b) == [7]
      && UsedSpace(PollAsWritten(b, 3).buf) == 65534
      && Contents(PollAsWritten(b, 3).buf)[65533] == 7
      && IsEmpty(PollAsWritten(b, 65537).buf)
      && PollAsWritten(b, 131072).buf.head == 65536
      && Poll(b, 3).at == None && Poll(b, 65537).at == None && Poll(b, 131072).at == None
  {
  }
}
