/** Length-prefixed framing of src/common/framed_socket.cpp. A frame is a
    4-byte big-endian unsigned payload size followed by the payload. The
    receiving side keeps a byte buffer and the size of the frame it is
    waiting for (0: waiting for a size prefix) across reads. */
module Framing {
  import opened DataStream

  const PrefixSize := 4

  /** The bytes sendFrame writes for one payload, in a single write. The size
      goes through static_cast<quint32>, so it is taken modulo 2^32. */
  function Frame(payload: seq<byte>): (frame: seq<byte>)
    ensures |frame| == PrefixSize + |payload|
    ensures frame[PrefixSize..] == payload
    ensures DecodeBE(frame[..PrefixSize]) == |payload| % 0x1_0000_0000
  {
    Pow256Widths();
    var prefix := WriteU32(|payload| % 0x1_0000_0000);
    DecodeEncode(|payload| % 0x1_0000_0000, 4);
    assert (prefix + payload)[..PrefixSize] == prefix;
    prefix + payload
  }

  /** The frames of several payloads, back to back. */
  function Frames(payloads: seq<seq<byte>>): seq<byte>
  {
    if payloads == [] then [] else Frame(payloads[0]) + Frames(payloads[1..])
  }

  // ------------------------------------------------------ receiving state

  datatype Receiver = Receiver(buffer: seq<byte>, expectedSize: u32)

  const Idle := Receiver([], 0)

  /** No complete frame is buffered: either no size prefix can be read yet,
      or the announced payload has not fully arrived. */
  predicate Quiescent(r: Receiver)
  {
    if r.expectedSize == 0 then |r.buffer| < PrefixSize else |r.buffer| < r.expectedSize
  }

  function Append(r: Receiver, data: seq<byte>): Receiver
  {
    Receiver(r.buffer + data, r.expectedSize)
  }

  datatype Step = Step(consumed: bool, payload: seq<byte>, next: Receiver)

  /** One call of tryConsumeOneFrame on a receiving state. */
  function TryConsume(r: Receiver): (s: Step)
    ensures s.consumed ==> s.next.expectedSize == 0 && |s.next.buffer| < |r.buffer|
    ensures !s.consumed ==> s.payload == [] && Quiescent(s.next)
  {
    Pow256Widths();
    if r.expectedSize == 0 && |r.buffer| < PrefixSize then
      Step(false, [], r)
    else
      var size := if r.expectedSize == 0 then DecodeBE(r.buffer[..PrefixSize]) else r.expectedSize;
      var buf := if r.expectedSize == 0 then r.buffer[PrefixSize..] else r.buffer;
      if |buf| < size then
        Step(false, [], Receiver(buf, size))
      else
        Step(true, buf[..size], Receiver(buf[size..], 0))
  }

  /** A step that starts from a size prefix and completes removes exactly one
      frame, the one carrying the emitted payload. */
  lemma {:induction false} ConsumedFrame(r: Receiver)
    requires r.expectedSize == 0 && TryConsume(r).consumed
    ensures r.buffer == Frame(TryConsume(r).payload) + TryConsume(r).next.buffer
  {
    Pow256Widths();
    var s := TryConsume(r);
    var prefix, buf := r.buffer[..PrefixSize], r.buffer[PrefixSize..];
    var size := DecodeBE(prefix);
    assert s.payload == buf[..size] && s.next.buffer == buf[size..];
    assert |s.payload| % 0x1_0000_0000 == size;
    EncodeDecode(prefix);
    assert Frame(s.payload)[..PrefixSize] == prefix by {
      EncodeDecode(Frame(s.payload)[..PrefixSize]);
    }
    assert Frame(s.payload) == Frame(s.payload)[..PrefixSize] + Frame(s.payload)[PrefixSize..];
    assert r.buffer == prefix + (s.payload + s.next.buffer);
  }

  /** A step that continues a frame whose size is known and completes removes
      exactly the announced number of payload bytes. */
  lemma {:induction false} ConsumedPayload(r: Receiver)
    requires r.expectedSize != 0 && TryConsume(r).consumed
    ensures |TryConsume(r).payload| == r.expectedSize
    ensures r.buffer == TryConsume(r).payload + TryConsume(r).next.buffer
  {
  }

  /** A step that does not complete a frame takes at most the size prefix, and
      keeps the size it read from it. */
  lemma {:induction false} StoppedStep(r: Receiver)
    requires !TryConsume(r).consumed
    ensures r.expectedSize == 0 && |r.buffer| >= PrefixSize ==>
              TryConsume(r).next == Receiver(r.buffer[PrefixSize..], DecodeBE(r.buffer[..PrefixSize]))
    ensures r.expectedSize != 0 || |r.buffer| < PrefixSize ==> TryConsume(r).next == r
  {
  }

  /** The onReadyRead loop: consume frames until none is complete. Yields the
      payloads in the order they were consumed and the state left behind. */
  function Drain(r: Receiver): (out: (seq<seq<byte>>, Receiver))
    ensures Quiescent(out.1)
    decreases |r.buffer|
  {
    var s := TryConsume(r);
    if s.consumed then
      var d := Drain(s.next);
      ([s.payload] + d.0, d.1)
    else
      ([], s.next)
  }

  /** One read: the bytes are appended and the buffer drained. */
  function Feed(r: Receiver, data: seq<byte>): (seq<seq<byte>>, Receiver)
  {
    Drain(Append(r, data))
  }

  /** A sequence of reads, one chunk each, from state r. */
  function FeedAll(r: Receiver, chunks: seq<seq<byte>>): (seq<seq<byte>>, Receiver)
    decreases |chunks|
  {
    if chunks == [] then ([], r)
    else
      var first := Feed(r, chunks[0]);
      var more := FeedAll(first.1, chunks[1..]);
      (first.0 + more.0, more.1)
  }

  function Concat(chunks: seq<seq<byte>>): seq<byte>
  {
    if chunks == [] then [] else chunks[0] + Concat(chunks[1..])
  }

  // -------------------------------------------------------------- lemmas

  lemma QuiescentIsStuck(r: Receiver)
    requires Quiescent(r)
    ensures TryConsume(r) == Step(false, [], r)
    ensures Drain(r) == ([], r)
  {
  }

  /** A first step that completes a frame completes it whatever follows. A
      first step that stops leaves a state that behaves, on any extra data,
      exactly as the original state does on it. */
  lemma {:induction false} TryConsumeAppend(r: Receiver, data: seq<byte>)
    ensures TryConsume(r).consumed ==>
      TryConsume(Append(r, data)) == Step(true, TryConsume(r).payload, Append(TryConsume(r).next, data))
    ensures !TryConsume(r).consumed ==> TryConsume(Append(r, data)) == TryConsume(Append(TryConsume(r).next, data))
  {
    Pow256Widths();
    var b := r.buffer;
    var b' := b + data;
    if r.expectedSize == 0 && |b| >= PrefixSize {
      assert b'[..4] == b[..4];
      assert b'[4..] == b[4..] + data;
    }
    if TryConsume(r).consumed {
      var size := if r.expectedSize == 0 then DecodeBE(b[..4]) else r.expectedSize;
      var buf := if r.expectedSize == 0 then b[4..] else b;
      assert (buf + data)[..size] == buf[..size];
      assert (buf + data)[size..] == buf[size..] + data;
    }
  }

  /** Draining after appending data equals draining first, then appending the
      data to what is left and draining again. */
  lemma {:induction false} DrainAppend(r: Receiver, data: seq<byte>)
    ensures Drain(Append(r, data)).0 == Drain(r).0 + Drain(Append(Drain(r).1, data)).0
    ensures Drain(Append(r, data)).1 == Drain(Append(Drain(r).1, data)).1
    decreases |r.buffer|
  {
    var s := TryConsume(r);
    TryConsumeAppend(r, data);
    if s.consumed {
      DrainAppend(s.next, data);
      assert Append(s.next, data).buffer == s.next.buffer + data;
    } else {
      var s' := TryConsume(Append(r, data));
      assert s' == TryConsume(Append(s.next, data));
      assert Drain(Append(r, data)) == Drain(Append(s.next, data));
    }
  }

  lemma {:induction false} ConcatCons(chunks: seq<seq<byte>>)
    requires chunks != []
    ensures Concat(chunks) == chunks[0] + Concat(chunks[1..])
  {
  }

  /** Chunking independence: from a quiescent state, reading the chunks one by
      one emits the same payloads and leaves the same state as reading their
      concatenation at once. */
  lemma {:induction false} ChunkingIndependence(r: Receiver, chunks: seq<seq<byte>>)
    requires Quiescent(r)
    ensures FeedAll(r, chunks) == Feed(r, Concat(chunks))
    decreases |chunks|
  {
    if chunks == [] {
      QuiescentIsStuck(r);
      assert Append(r, []) == r;
    } else {
      var c, cs := chunks[0], chunks[1..];
      var (first, r1) := Feed(r, c);
      ChunkingIndependence(r1, cs);
      DrainAppend(Append(r, c), Concat(cs));
      assert Append(Append(r, c), Concat(cs)) == Append(r, Concat(chunks));
    }
  }

  /** Two ways of cutting the same byte stream into reads are indistinguishable. */
  lemma AnyTwoChunkings(a: seq<seq<byte>>, b: seq<seq<byte>>)
    requires Concat(a) == Concat(b)
    ensures FeedAll(Idle, a) == FeedAll(Idle, b)
  {
    ChunkingIndependence(Idle, a);
    ChunkingIndependence(Idle, b);
  }

  predicate SizesFit(payloads: seq<seq<byte>>)
  {
    forall i :: 0 <= i < |payloads| ==> |payloads[i]| < 0x1_0000_0000
  }

  /** From a size prefix, a whole frame in the buffer is consumed in one step. */
  lemma {:induction false} FrameConsumed(p: seq<byte>, rest: seq<byte>)
    requires |p| < 0x1_0000_0000
    ensures TryConsume(Receiver(Frame(p) + rest, 0)) == Step(true, p, Receiver(rest, 0))
  {
    var b := Frame(p) + rest;
    assert b[..PrefixSize] == Frame(p)[..PrefixSize];
    assert DecodeBE(b[..PrefixSize]) == |p|;
    assert b[PrefixSize..] == p + rest;
    assert (p + rest)[..|p|] == p && (p + rest)[|p|..] == rest;
  }

  /** The receiver reads back exactly the payloads of back-to-back frames,
      zero-length ones included, and ends idle. */
  lemma {:induction false} DrainFrames(payloads: seq<seq<byte>>)
    requires SizesFit(payloads)
    ensures Drain(Receiver(Frames(payloads), 0)) == (payloads, Idle)
    decreases |payloads|
  {
    if payloads != [] {
      var p := payloads[0];
      var rest := Frames(payloads[1..]);
      FrameConsumed(p, rest);
      DrainFrames(payloads[1..]);
      assert Drain(Receiver(Frames(payloads), 0)) == ([p] + payloads[1..], Idle);
      assert [p] + payloads[1..] == payloads;
    }
  }

  /** The end-to-end framing property: however the frames of p1..pk are cut
      into reads, the receiver emits exactly [p1..pk] and ends idle. */
  lemma FramesSurviveAnyChunking(payloads: seq<seq<byte>>, chunks: seq<seq<byte>>)
    requires SizesFit(payloads)
    requires Concat(chunks) == Frames(payloads)
    ensures FeedAll(Idle, chunks) == (payloads, Idle)
  {
    ChunkingIndependence(Idle, chunks);
    assert Append(Idle, Concat(chunks)) == Receiver(Frames(payloads), 0);
    DrainFrames(payloads);
  }

  // ------------------------------------------------------ the socket class

  /** The framing half of FramedSocket. `received` records the payloads passed
      to frameReceived, `written` the byte blocks handed to the socket. */
  class FramedSocket {
    var buffer: seq<byte>
    var expectedSize: u32
    var received: seq<seq<byte>>
    var written: seq<seq<byte>>

    function State(): Receiver
      reads this
    {
      Receiver(buffer, expectedSize)
    }

    constructor ()
      ensures State() == Idle && received == [] && written == []
    {
      buffer := [];
      expectedSize := 0;
      received := [];
      written := [];
    }

    method SendFrame(payload: seq<byte>)
      modifies this`written
      ensures written == old(written) + [Frame(payload)]
    {
      Pow256Widths();
      var frame := WriteU32(|payload| % 0x1_0000_0000);
      frame := frame + payload;
      written := written + [frame];
    }

    method TryConsumeOneFrame() returns (consumed: bool)
      modifies this`buffer, this`expectedSize, this`received
      ensures old(expectedSize) == 0 && |old(buffer)| < PrefixSize ==>
                !consumed && buffer == old(buffer) && expectedSize == 0
      ensures old(expectedSize) == 0 && |old(buffer)| >= PrefixSize && !consumed ==>
                expectedSize == DecodeBE(old(buffer)[..PrefixSize]) && buffer == old(buffer)[PrefixSize..]
      ensures old(expectedSize) != 0 && |old(buffer)| < old(expectedSize) ==>
                !consumed && buffer == old(buffer) && expectedSize == old(expectedSize)
      ensures consumed ==> expectedSize == 0
      ensures !consumed ==> received == old(received)
      ensures consumed == TryConsume(old(State())).consumed
      ensures State() == TryConsume(old(State())).next
      ensures consumed ==> received == old(received) + [TryConsume(old(State())).payload]
    {
      Pow256Widths();
      if expectedSize == 0 {
        if |buffer| < PrefixSize {
          return false;
        }
        expectedSize := DecodeBE(buffer[..PrefixSize]);
        buffer := buffer[PrefixSize..];
      }
      if |buffer| < expectedSize {
        return false;
      }
      var payload := buffer[..expectedSize];
      buffer := buffer[expectedSize..];
      expectedSize := 0;
      received := received + [payload];
      return true;
    }

    method OnReadyRead(data: seq<byte>)
      modifies this`buffer, this`expectedSize, this`received
      ensures received == old(received) + Feed(old(State()), data).0
      ensures State() == Feed(old(State()), data).1
      ensures Quiescent(State())
    {
      buffer := buffer + data;
      ghost var target := Drain(State());
      ghost var before := received;
      var more := true;
      while more
        invariant more ==> before + target.0 == received + Drain(State()).0
        invariant more ==> target.1 == Drain(State()).1
        invariant !more ==> received == before + target.0 && State() == target.1
        decreases |buffer|, more
      {
        ghost var pre := State();
        more := TryConsumeOneFrame();
        assert Drain(pre).0 == (if more then [TryConsume(pre).payload] + Drain(State()).0 else []);
      }
    }
  }
}
