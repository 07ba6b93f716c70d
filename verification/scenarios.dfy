/** The repository's test cases, stated about the model: each fixes a
    capacity of 65536 bytes and a short sequence of calls. */
module Scenarios {
  import opened Bytes
  import opened Mirror
  import opened Cirbuf
  import opened OverRelease

  /** The bytes of the string "abcd". */
  function Abcd(): seq<byte> { [97, 98, 99, 100] }

  /** The bytes of the string "efgh". */
  function Efgh(): seq<byte> { [101, 102, 103, 104] }

  /** A fresh buffer reports its capacity, is empty and has all of it free. */
  lemma FreshBuffer()
    ensures New(65536).Some?
    ensures var b := New(65536).value;
      Size(b) == 65536 && IsEmpty(b) && UsedSpace(b) == 0 && UnusedSpace(b) == 65536
  {
  }

  /** Offering "abcd" takes 4 bytes and makes the buffer non-empty; releasing
      them hands back "abcd" and empties it again. */
  lemma OfferAndPollAbcd()
    ensures var b := New(65536).value; var o := Offer(b, Abcd());
      && o.count == 4 && !IsEmpty(o.buf) && UsedSpace(o.buf) == 4
      && var p := Poll(o.buf, 4);
      && p.at.Some? && Window(p.buf.data, p.at.value, 4) == Abcd()
      && IsEmpty(p.buf) && UsedSpace(p.buf) == 0
  {
    OfferThenPollRoundTrip(New(65536).value, Abcd());
  }

  /** An offer of `1 << 17` or of exactly `1 << 16` bytes is refused and
      changes nothing. */
  lemma OversizedOffersRefused(d: seq<byte>)
    requires |d| == 131072 || |d| == 65536
    ensures var b := New(65536).value; Offer(b, d) == Offered(b, 0)
  {
  }

  /** Polling a fresh buffer, or polling again after the only bytes were
      released, returns NULL, with the corrected poll and with the poll as
      written alike. */
  lemma PollWhenNothingLeft()
    ensures Poll(New(65536).value, 4).at == None
    ensures PollAsWritten(New(65536).value, 4).at == None
    ensures var b := Offer(New(65536).value, [49, 48, 48, 48]).buf;
      var p1 := Poll(b, 4).buf; var p2 := Poll(p1, 4).buf;
      Poll(p2, 4).at == None
    ensures var b := Offer(New(65536).value, [49, 48, 48, 48]).buf;
      var p1 := PollAsWritten(b, 4).buf; var p2 := PollAsWritten(p1, 4).buf;
      PollAsWritten(p2, 4).at == None
  {
    var b := Offer(New(65536).value, [49, 48, 48, 48]).buf;
    assert Contents(b) == [49, 48, 48, 48];
  }

  /** A fresh buffer fed four bytes shows them through both `cirbuf_peek`
      and `cirbuf_poll`. */
  lemma FreshBufferShowsOffer(x: seq<byte>)
    requires |x| == 4
    ensures var b := Offer(New(65536).value, x).buf;
      && Peek(b).Some? && Window(b.data, Peek(b).value, 4) == x
      && Poll(b, 4).at.Some? && Window(b.data, Poll(b, 4).at.value, 4) == x
  {
    var b := Offer(New(65536).value, x).buf;
    assert Contents(b) == x;
    assert Contents(b)[..4] == x;
  }

  /** Two buffers fed "abcd" and "efgh" each peek and poll their own bytes. */
  lemma BuffersAreIndependent()
    ensures var b1 := Offer(New(65536).value, Abcd()).buf;
      var b2 := Offer(New(65536).value, Efgh()).buf;
      && Peek(b1).Some? && Window(b1.data, Peek(b1).value, 4) == Abcd()
      && Peek(b2).Some? && Window(b2.data, Peek(b2).value, 4) == Efgh()
      && Poll(b1, 4).at.Some? && Window(b1.data, Poll(b1, 4).at.value, 4) == Abcd()
      && Poll(b2, 4).at.Some? && Window(b2.data, Poll(b2, 4).at.value, 4) == Efgh()
  {
    FreshBufferShowsOffer(Abcd());
    FreshBufferShowsOffer(Efgh());
  }
}
