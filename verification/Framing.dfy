/** Length-prefixed framing over a byte stream that arrives and leaves in arbitrary pieces. */
module Framing {
  import opened Common

  type Byte = b: int | 0 <= b < 256
  type Bytes = seq<Byte>

  const K_MAX_MSG := 0x200_0000  // 32 << 20

  /** The k low-order bytes of n, most significant byte first. */
  function BigEndian(n: nat, k: nat): (r: Bytes)
    ensures |r| == k
  {
    if k == 0 then [] else BigEndian(n / 256, k - 1) + [n % 256]
  }

  function FromBigEndian(b: Bytes): nat {
    if b == [] then 0 else FromBigEndian(b[..|b| - 1]) * 256 + b[|b| - 1]
  }

  function Pow256(k: nat): nat {
    if k == 0 then 1 else 256 * Pow256(k - 1)
  }

  lemma {:induction false} BigEndianRoundTrip(n: nat, k: nat)
    requires n < Pow256(k)
    ensures FromBigEndian(BigEndian(n, k)) == n
  {
    if k > 0 {
      BigEndianRoundTrip(n / 256, k - 1);
      var head := BigEndian(n / 256, k - 1);
      assert BigEndian(n, k) == head + [n % 256];
      assert BigEndian(n, k)[..k - 1] == head;
    }
  }

  lemma {:induction false} FromBigEndianRoundTrip(b: Bytes)
    ensures BigEndian(FromBigEndian(b), |b|) == b && FromBigEndian(b) < Pow256(|b|)
  {
    if b != [] {
      FromBigEndianRoundTrip(b[..|b| - 1]);
    }
  }

  /** `htonl` of a size, which is first cut to 32 bits. */
  function Be32(n: nat): (r: Bytes)
    ensures |r| == 4
  {
    BigEndian(n % 0x1_0000_0000, 4)
  }

  /** `ntohl` of four bytes. */
  function FromBe32(b: Bytes): nat
    requires |b| == 4
  {
    FromBigEndian(b)
  }

  lemma Pow256Of4()
    ensures Pow256(4) == 0x1_0000_0000
  {
    assert Pow256(1) == 256 && Pow256(2) == 0x1_0000 && Pow256(3) == 0x100_0000;
  }

  lemma Be32RoundTrip(n: nat)
    ensures FromBe32(Be32(n)) == n % 0x1_0000_0000
  {
    Pow256Of4();
    BigEndianRoundTrip(n % 0x1_0000_0000, 4);
  }

  lemma FromBe32RoundTrip(b: Bytes)
    requires |b| == 4
    ensures Be32(FromBe32(b)) == b && FromBe32(b) < 0x1_0000_0000
  {
    Pow256Of4();
    FromBigEndianRoundTrip(b);
    assert FromBe32(b) % 0x1_0000_0000 == FromBigEndian(b);
  }

  function Frame(data: Bytes): Bytes {
    Be32(|data|) + data
  }

  function Frames(messages: seq<Bytes>): Bytes {
    if messages == [] then [] else Frames(messages[..|messages| - 1]) + Frame(messages[|messages| - 1])
  }

  lemma {:induction false} FramesOneMore(messages: seq<Bytes>, data: Bytes)
    ensures Frames(messages + [data]) == Frames(messages) + Frame(data)
  {
    assert (messages + [data])[..|messages|] == messages;
  }

  lemma {:induction false} FramesOfSum(a: seq<Bytes>, b: seq<Bytes>)
    ensures Frames(a + b) == Frames(a) + Frames(b)
  {
    if b == [] {
      assert a + b == a;
    } else {
      var n := |b| - 1;
      FramesOfSum(a, b[..n]);
      FramesOneMore(a + b[..n], b[n]);
      assert a + b == (a + b[..n]) + [b[n]];
      Associative(Frames(a), Frames(b[..n]), Frame(b[n]));
    }
  }

  lemma {:induction false} FramesFirst(data: Bytes, rest: seq<Bytes>)
    ensures Frames([data] + rest) == Frame(data) + Frames(rest)
  {
    FramesOneMore([], data);
    assert [] + [data] == [data];
    FramesOfSum([data], rest);
  }

  // ---------- One request ----------

  /** What `try_one_request` finds at the front of the buffer. */
  datatype Front = Incomplete | Oversize | Request(data: Bytes)

  function TryFront(buf: Bytes): (f: Front)
    ensures f.Request? ==> 4 + |f.data| <= |buf| && |f.data| <= K_MAX_MSG
  {
    if |buf| < 4 then Incomplete
    else
      var len := FromBe32(buf[..4]);
      if len > K_MAX_MSG then Oversize
      else if |buf| < 4 + len then Incomplete
      else Request(buf[4..4 + len])
  }

  /** The number in the first four bytes, most significant first. */
  function Prefix(buf: Bytes): nat
    requires |buf| >= 4
  {
    0x100_0000 * (buf[0] as int) + 0x1_0000 * (buf[1] as int) + 0x100 * (buf[2] as int) + (buf[3] as int)
  }

  lemma {:induction false} FourBytes(b: Bytes)
    requires |b| == 4
    ensures FromBe32(b) == 0x100_0000 * (b[0] as int) + 0x1_0000 * (b[1] as int) + 0x100 * (b[2] as int) + (b[3] as int)
  {
    assert b[..3][..2] == b[..2] && b[..2][..1] == b[..1] && b[..1][..0] == [];
    assert FromBigEndian(b[..1]) == b[0];
    var (b0, b1, b2) := (b[0] as int, b[1] as int, b[2] as int);
    assert FromBigEndian(b[..2]) == 256 * b0 + b1;
    assert FromBigEndian(b[..3]) == 256 * (256 * b0 + b1) + b2;
  }

  /** What the front of a buffer is, byte for byte: oversize above 32 MiB, else a request once it is all there. */
  lemma FrontByCase(buf: Bytes)
    ensures TryFront(buf) == Oversize <==> |buf| >= 4 && Prefix(buf) > 33554432
    ensures TryFront(buf) == Incomplete <==> |buf| < 4 || (Prefix(buf) <= 33554432 && |buf| < 4 + Prefix(buf))
    ensures TryFront(buf).Request? ==> TryFront(buf).data == buf[4..4 + Prefix(buf)]
  {
    if |buf| >= 4 {
      FourBytes(buf[..4]);
    }
  }

  /** A frame is four bytes that give the size, modulo 2^32, and the data. */
  lemma FrameByBytes(data: Bytes)
    ensures |Frame(data)| == 4 + |data| && Frame(data)[4..] == data
    ensures Prefix(Frame(data)) == |data| % 0x1_0000_0000
  {
    Be32RoundTrip(|data|);
    assert Frame(data)[..4] == Be32(|data|);
    FourBytes(Frame(data)[..4]);
  }

  /** Bytes that follow a decided front do not matter. */
  lemma FrontStays(buf: Bytes, more: Bytes)
    requires TryFront(buf) != Incomplete
    ensures TryFront(buf + more) == TryFront(buf)
  {
    assert (buf + more)[..4] == buf[..4];
    if TryFront(buf).Request? {
      var len := FromBe32(buf[..4]);
      assert (buf + more)[4..4 + len] == buf[4..4 + len];
    }
  }

  /** A request found at the front is the first frame of the buffer. */
  lemma FrontIsFrame(buf: Bytes)
    requires TryFront(buf).Request?
    ensures buf == Frame(TryFront(buf).data) + buf[4 + |TryFront(buf).data|..]
  {
    var data := TryFront(buf).data;
    FromBe32RoundTrip(buf[..4]);
    assert buf == buf[..4] + buf[4..4 + |data|] + buf[4 + |data|..];
  }

  /** A frame at the front gives back its message exactly when the message is within the size limit. */
  lemma FrameIsFront(data: Bytes, more: Bytes)
    ensures TryFront(Frame(data) + more) == Request(data) <==> |data| <= K_MAX_MSG
  {
    var buf, len := Frame(data) + more, |data| % 0x1_0000_0000;
    Be32RoundTrip(|data|);
    assert buf[..4] == Be32(|data|);
    assert buf[4..4 + len] == data[..len];
    if |data| <= K_MAX_MSG { assert data[..len] == data; }
  }

  // ---------- Draining a buffer ----------

  datatype Drained = Drained(requests: seq<Bytes>, rest: Bytes, oversize: bool)

  function Drain(buf: Bytes): (r: Drained)
    ensures !r.oversize ==> TryFront(r.rest) == Incomplete
    decreases |buf|
  {
    match TryFront(buf)
    case Incomplete => Drained([], buf, false)
    case Oversize => Drained([], buf, true)
    case Request(data) =>
      var r := Drain(buf[4 + |data|..]);
      r.(requests := [data] + r.requests)
  }

  /** No byte is lost or invented. */
  lemma {:induction false} DrainConserves(buf: Bytes)
    ensures Frames(Drain(buf).requests) + Drain(buf).rest == buf
    decreases |buf|
  {
    match TryFront(buf) {
      case Incomplete =>
      case Oversize =>
      case Request(data) =>
        var tail := buf[4 + |data|..];
        var r := Drain(tail);
        DrainConserves(tail);
        FrontIsFrame(buf);
        FramesFirst(data, r.requests);
        Associative(Frame(data), Frames(r.requests), r.rest);
    }
  }

  /** More bytes: draining goes on from what was left over, and an oversize frame ends it for good. */
  lemma {:induction false} DrainMore(buf: Bytes, more: Bytes)
    ensures var r := Drain(buf);
            var all := Drain(buf + more);
            if r.oversize then all.oversize && all.requests == r.requests
            else
              var next := Drain(r.rest + more);
              all == next.(requests := r.requests + next.requests)
    decreases |buf|
  {
    match TryFront(buf) {
      case Incomplete =>
        assert [] + Drain(buf + more).requests == Drain(buf + more).requests;
      case Oversize => FrontStays(buf, more);
      case Request(data) =>
        FrontStays(buf, more);
        var tail := buf[4 + |data|..];
        assert (buf + more)[4 + |data|..] == tail + more;
        DrainMore(tail, more);
        var r := Drain(tail);
        assert [data] + (r.requests + Drain(r.rest + more).requests) ==
               ([data] + r.requests) + Drain(r.rest + more).requests;
    }
  }

  function After(requests: seq<Bytes>, d: Drained): Drained {
    d.(requests := requests + d.requests)
  }

  /** One turn of the drain loop. */
  lemma {:induction false} DrainStep(requests: seq<Bytes>, buf: Bytes)
    ensures TryFront(buf).Request? ==>
              var data := TryFront(buf).data;
              After(requests, Drain(buf)) == After(requests + [data], Drain(buf[4 + |data|..]))
    ensures !TryFront(buf).Request? ==> After(requests, Drain(buf)) == Drained(requests, buf, TryFront(buf).Oversize?)
  {
    if TryFront(buf).Request? {
      var data := TryFront(buf).data;
      assert requests + ([data] + Drain(buf[4 + |data|..]).requests) ==
             (requests + [data]) + Drain(buf[4 + |data|..]).requests;
    } else {
      assert requests + [] == requests;
    }
  }

  // ---------- Any chunking ----------

  function Concat(chunks: seq<Bytes>): Bytes {
    if chunks == [] then [] else Concat(chunks[..|chunks| - 1]) + chunks[|chunks| - 1]
  }

  /** Feeding chunk after chunk, until an oversize frame closes the connection. */
  function Feed(chunks: seq<Bytes>): Drained {
    if chunks == [] then Drained([], [], false)
    else
      var r := Feed(chunks[..|chunks| - 1]);
      if r.oversize then r
      else
        var next := Drain(r.rest + chunks[|chunks| - 1]);
        next.(requests := r.requests + next.requests)
  }

  /** The requests delivered, and whether and when the connection closes, depend on the stream and not on its pieces. */
  lemma {:induction false} ChunkingIsIrrelevant(chunks: seq<Bytes>)
    ensures Feed(chunks).requests == Drain(Concat(chunks)).requests
    ensures Feed(chunks).oversize == Drain(Concat(chunks)).oversize
    ensures !Feed(chunks).oversize ==> Feed(chunks).rest == Drain(Concat(chunks)).rest
  {
    if chunks != [] {
      ChunkingIsIrrelevant(chunks[..|chunks| - 1]);
      DrainMore(Concat(chunks[..|chunks| - 1]), chunks[|chunks| - 1]);
    }
  }

  /** Up to the end, or to an oversize frame, the bytes read are those of the delivered requests and the ones left over. */
  lemma {:induction false} FeedConserves(chunks: seq<Bytes>)
    requires !Feed(chunks).oversize
    ensures Frames(Feed(chunks).requests) + Feed(chunks).rest == Concat(chunks)
    ensures TryFront(Feed(chunks).rest) == Incomplete
  {
    ChunkingIsIrrelevant(chunks);
    DrainConserves(Concat(chunks));
  }

  lemma {:induction false} DrainOfFrame(data: Bytes, more: Bytes)
    requires |data| <= K_MAX_MSG
    ensures Drain(Frame(data) + more) == After([data], Drain(more))
  {
    FrameIsFront(data, more);
    assert (Frame(data) + more)[4 + |data|..] == more;
  }

  lemma AfterTwice(a: seq<Bytes>, b: seq<Bytes>, d: Drained)
    ensures After(a, After(b, d)) == After(a + b, d)
  {
    assert a + (b + d.requests) == (a + b) + d.requests;
  }

  lemma {:induction false} LastFrame(front: seq<Bytes>, last: Bytes, tail: Bytes)
    ensures Frames(front + [last]) + tail == Frames(front) + (Frame(last) + tail)
  {
    FramesOneMore(front, last);
  }

  lemma {:induction false} DrainOfFrames(messages: seq<Bytes>, tail: Bytes)
    requires forall m :: m in messages ==> |m| <= K_MAX_MSG
    ensures Drain(Frames(messages) + tail) == After(messages, Drain(tail))
    decreases |messages|
  {
    if messages == [] {
      assert Frames(messages) + tail == tail && [] + Drain(tail).requests == Drain(tail).requests;
    } else {
      var front, last := messages[..|messages| - 1], messages[|messages| - 1];
      assert messages == front + [last];
      LastFrame(front, last, tail);
      DrainOfFrames(front, Frame(last) + tail);
      DrainOfFrame(last, tail);
      AfterTwice(front, [last], Drain(tail));
    }
  }

  /** A sender's messages arrive complete and in order, however the network cuts the stream. */
  lemma {:induction false} MessagesArrive(messages: seq<Bytes>, chunks: seq<Bytes>)
    requires (forall m :: m in messages ==> |m| <= K_MAX_MSG) && Concat(chunks) == Frames(messages)
    ensures Feed(chunks) == Drained(messages, [], false)
  {
    ChunkingIsIrrelevant(chunks);
    DrainOfFrames(messages, []);
    assert Frames(messages) + [] == Frames(messages) && messages + [] == messages;
  }

  // ---------- The connection ----------

  /** The outcome of one `read` or `write`: `EAGAIN`, another error, end of stream, or success. */
  datatype ReadResult = ReadAgain | ReadError | EndOfStream | Received(chunk: Bytes)
  datatype WriteResult = WriteAgain | WriteError | Wrote(n: nat)

  class Connection {
    var wantRead: bool
    var wantWrite: bool
    var wantClose: bool
    var incoming: Bytes
    var outgoing: Bytes
    ghost var replies: seq<Bytes>     // every response enqueued
    ghost var written: Bytes          // every byte written so far

    ghost predicate Valid()
      reads this
    {
      && Frames(replies) == written + outgoing
      && (wantWrite <==> outgoing != [])
      && (wantRead <==> !wantWrite)
    }

    /** The connection that `handle_accept` sets up. */
    constructor ()
      ensures Valid() && incoming == [] && outgoing == [] && !wantClose && wantRead
      ensures replies == [] && written == []
    {
      wantRead, wantWrite, wantClose := true, false, false;
      incoming, outgoing := [], [];
      replies, written := [], [];
    }

    method TryOneRequest() returns (front: Front)
      requires Valid()
      modifies `incoming, `wantClose
      ensures Valid() && front == TryFront(old(incoming))
      ensures incoming == if front.Request? then old(incoming)[4 + |front.data|..] else old(incoming)
      ensures wantClose <==> old(wantClose) || front.Oversize?
    {
      if |incoming| < 4 {
        return Incomplete;
      }
      var len := FromBe32(incoming[..4]);
      if len > K_MAX_MSG {
        wantClose := true;
        return Oversize;
      }
      if |incoming| < 4 + len {
        return Incomplete;
      }
      front := Request(incoming[4..4 + len]);
      incoming := incoming[4 + len..];
    }

    /** Reads once, then drains every complete request. */
    method HandleRead(rv: ReadResult) returns (requests: seq<Bytes>)
      requires Valid()
      modifies `incoming, `wantClose
      ensures Valid()
      ensures !rv.Received? ==> requests == [] && incoming == old(incoming)
      ensures !rv.Received? ==> (wantClose <==> old(wantClose) || rv.ReadError? || rv.EndOfStream?)
      ensures rv.Received? ==>
                var r := Drain(old(incoming) + rv.chunk);
                requests == r.requests && incoming == r.rest && (wantClose <==> old(wantClose) || r.oversize)
    {
      requests := [];
      if rv.ReadAgain? {
        return;
      }
      if rv.EndOfStream? || rv.ReadError? {
        wantClose := true;
        return;
      }
      incoming := incoming + rv.chunk;
      ghost var all := Drain(incoming);
      while true
        invariant Valid() && wantClose == old(wantClose)
        invariant all == After(requests, Drain(incoming))
        decreases |incoming|
      {
        DrainStep(requests, incoming);
        var front := TryOneRequest();
        if !front.Request? {
          break;
        }
        requests := requests + [front.data];
      }
    }

    /** Sends the next piece of what is queued; the caller has something to write. */
    method HandleWrite(rv: WriteResult)
      requires Valid() && outgoing != []
      requires rv.Wrote? ==> rv.n <= |outgoing|
      modifies `outgoing, `wantRead, `wantWrite, `wantClose, `written
      ensures Valid()
      ensures rv.Wrote? ==> written == old(written + outgoing[..rv.n]) && outgoing == old(outgoing[rv.n..])
      ensures !rv.Wrote? ==> written == old(written) && outgoing == old(outgoing)
      ensures wantClose <==> old(wantClose) || rv.WriteError?
    {
      if rv.WriteError? {
        wantClose := true;
      } else if rv.Wrote? {
        assert outgoing == outgoing[..rv.n] + outgoing[rv.n..];
        written := written + outgoing[..rv.n];
        outgoing := outgoing[rv.n..];
        if |outgoing| == 0 {
          wantRead := true;
          wantWrite := false;
        }
      }
    }

    method EnqueueResponse(data: Bytes)
      requires Valid()
      modifies `outgoing, `wantRead, `wantWrite, `replies
      ensures Valid() && replies == old(replies) + [data] && outgoing == old(outgoing) + Frame(data)
    {
      FramesOneMore(replies, data);
      Associative(written, outgoing, Frame(data));
      Associative(outgoing, Be32(|data|), data);
      outgoing := outgoing + Be32(|data|);
      outgoing := outgoing + data;
      replies := replies + [data];
      wantRead := false;
      wantWrite := true;
    }

    /** The reads of one connection: it is served until it asks to be closed. */
    method ReadAll(chunks: seq<Bytes>) returns (requests: seq<Bytes>)
      requires Valid() && incoming == [] && !wantClose
      modifies `incoming, `wantClose
      ensures Valid()
      ensures requests == Drain(Concat(chunks)).requests
      ensures wantClose <==> Drain(Concat(chunks)).oversize
    {
      requests := [];
      for i := 0 to |chunks|
        invariant Valid() && Drained(requests, incoming, wantClose) == Feed(chunks[..i])
      {
        assert chunks[..i + 1][..i] == chunks[..i];
        if !wantClose {
          var more := HandleRead(Received(chunks[i]));
          requests := requests + more;
        }
      }
      assert chunks[..|chunks|] == chunks;
      ChunkingIsIrrelevant(chunks);
    }
  }
}
