/**
  The camera stream's framing, `RenderVideoHub.receive_frame_data`: a four-byte
  big-endian unsigned length, read with a single `recv(4)`, then exactly that many
  payload bytes, read in chunks of at most 4096 bytes.
 */
module Framing {
  import opened Bytes
  import opened Wrappers
  import opened Wire

  /** The largest payload chunk the decoder asks `recv` for. */
  const MaxChunk: nat := 4096

  function Min(a: nat, b: nat): nat { if a < b then a else b }

  /** A frame on the wire: the packed length of the payload, then the payload. */
  function Frame(p: seq<byte>): (r: seq<byte>)
    requires |p| < Two32
    ensures |r| == 4 + |p| && r[4..] == p
  {
    Be32(|p|) + p
  }

  /**
    The payload loop: accumulates chunks onto `acc` until `size` bytes are there.
    An empty chunk or a raising `recv` ends the frame with `None`.
   */
  function ReadPayload(inbox: Inbox, size: nat, acc: seq<byte>): (r: (Option<seq<byte>>, Inbox))
    requires |acc| <= size
    ensures r.0.Some? ==> |r.0.value| == size && r.0.value[..|acc|] == acc
    ensures r.0.Some? ==> Stream(inbox) == r.0.value[|acc|..] + Stream(r.1)
    ensures r.0.Some? ==> Weight(r.1) <= Weight(inbox)
    decreases size - |acc|
  {
    if |acc| >= size then (Some(acc), inbox)
    else
      var (chunk, rest) := Recv(inbox, Min(MaxChunk, size - |acc|));
      if chunk.Raised? || chunk.bytes == [] then (None, rest)
      else
        var r := ReadPayload(rest, size, acc + chunk.bytes);
        if r.0.Some? then
          SplitAfter(r.0.value, acc, chunk.bytes);
          r
        else r
  }

  /**
    The sizes the payload loop passes to `recv`, in order, one per chunk it asks for:
    each is `min(4096, size - len(acc))` at the time of the call.
   */
  function PayloadRequests(inbox: Inbox, size: nat, acc: seq<byte>): (rs: seq<nat>)
    requires |acc| <= size
    ensures forall i | 0 <= i < |rs| :: 0 < rs[i] <= MaxChunk
    ensures (rs == []) == (|acc| >= size)
    ensures rs != [] ==> rs[0] == Min(MaxChunk, size - |acc|)
    decreases size - |acc|
  {
    if |acc| >= size then []
    else
      var n := Min(MaxChunk, size - |acc|);
      var (chunk, rest) := Recv(inbox, n);
      if chunk.Raised? || chunk.bytes == [] then [n]
      else [n] + PayloadRequests(rest, size, acc + chunk.bytes)
  }

  /* A sequence that starts with `a + c` continues, after `a`, with `c`. */
  lemma SplitAfter(v: seq<byte>, a: seq<byte>, c: seq<byte>)
    requires |a + c| <= |v| && v[..|a + c|] == a + c
    ensures v[|a|..] == c + v[|a + c|..]
  {
    assert v[|a|..|a + c|] == c;
  }

  /**
    `receive_frame_data`: `Some(payload)` for a complete frame, `None` where the source
    returns `None`; also what is left to read.
   */
  function ReadFrame(inbox: Inbox): (r: (Option<seq<byte>>, Inbox))
    ensures r.0.Some? ==> |r.0.value| < Two32
    ensures r.0.Some? ==> |Stream(inbox)| >= 4 && Be32Value(Stream(inbox)[..4]) == |r.0.value|
    ensures r.0.Some? ==> Stream(inbox) == Frame(r.0.value) + Stream(r.1)
    ensures r.0.Some? ==> Weight(r.1) < Weight(inbox)
  {
    var (sizeData, rest) := Recv(inbox, 4);
    if sizeData.Raised? || sizeData.bytes == [] || |sizeData.bytes| != 4 then (None, rest)
    else
      var r := ReadPayload(rest, Be32Value(sizeData.bytes), []);
      if r.0.Some? then
        Be32OfBe32Value(sizeData.bytes);
        assert Stream(inbox)[..4] == sizeData.bytes;
        r
      else r
  }

  /**
    The source's loop. The result is the one `ReadFrame` gives, and `requests` records
    the size of every payload `recv` call: those `PayloadRequests` gives after a whole
    header, none otherwise. Each is positive and at most 4096 bytes.
   */
  method ReceiveFrame(conn: Inbox) returns (frame: Option<seq<byte>>, rest: Inbox, ghost requests: seq<nat>)
    ensures (frame, rest) == ReadFrame(conn)
    ensures var (header, afterHeader) := Recv(conn, 4);
      requests == if header.Got? && |header.bytes| == 4
                  then PayloadRequests(afterHeader, Be32Value(header.bytes), [])
                  else []
    ensures forall i | 0 <= i < |requests| :: 0 < requests[i] <= MaxChunk
  {
    requests := [];
    var (sizeData, afterHeader) := Recv(conn, 4);
    rest := afterHeader;
    if sizeData.Raised? || sizeData.bytes == [] || |sizeData.bytes| != 4 {
      return None, rest, requests;
    }
    var frameSize := Be32Value(sizeData.bytes);
    var frameData: seq<byte> := [];
    while |frameData| < frameSize
      invariant |frameData| <= frameSize
      invariant ReadPayload(rest, frameSize, frameData) == ReadFrame(conn)
      invariant requests + PayloadRequests(rest, frameSize, frameData)
             == PayloadRequests(afterHeader, frameSize, [])
      decreases frameSize - |frameData|
    {
      var chunkSize := Min(MaxChunk, frameSize - |frameData|);
      PayloadStep(rest, frameSize, frameData);
      RequestsStep(rest, frameSize, frameData, requests);
      requests := requests + [chunkSize];
      var (chunk, afterChunk) := Recv(rest, chunkSize);
      rest := afterChunk;
      if chunk.Raised? || chunk.bytes == [] {
        return None, rest, requests;
      }
      frameData := frameData + chunk.bytes;
    }
    return Some(frameData), rest, requests;
  }

  /* One turn of the payload loop, in terms of `ReadPayload`. */
  lemma PayloadStep(inbox: Inbox, size: nat, acc: seq<byte>)
    requires |acc| < size
    ensures var (chunk, rest) := Recv(inbox, Min(MaxChunk, size - |acc|));
      ReadPayload(inbox, size, acc)
        == if chunk.Raised? || chunk.bytes == [] then (None, rest) else ReadPayload(rest, size, acc + chunk.bytes)
  {
  }

  /* One turn of the payload loop, in terms of `PayloadRequests`. */
  lemma RequestsStep(inbox: Inbox, size: nat, acc: seq<byte>, done: seq<nat>)
    requires |acc| < size
    ensures var n := Min(MaxChunk, size - |acc|);
      var (chunk, rest) := Recv(inbox, n);
      if chunk.Raised? || chunk.bytes == [] then done + PayloadRequests(inbox, size, acc) == done + [n]
      else done + PayloadRequests(inbox, size, acc) == (done + [n]) + PayloadRequests(rest, size, acc + chunk.bytes)
  {
  }

  /** The header is never put together from several reads: a first read of fewer than four bytes ends the stream, whatever follows. */
  lemma ShortHeaderEndsStream(c: seq<byte>, tail: Inbox)
    requires |c| < 4
    ensures ReadFrame([Data(c)] + tail).0 == None
  {
  }

  /** A closed or failing connection yields no frame. */
  lemma ClosedConnectionEndsStream(tail: Inbox)
    ensures ReadFrame([]).0 == None
    ensures ReadFrame([Reset] + tail).0 == None
  {
  }

  /** A stream that stops before the frame its header announces is complete yields no frame. */
  lemma IncompleteFrameEndsStream(inbox: Inbox, p: seq<byte>)
    requires |p| < Two32
    requires |Stream(inbox)| < |Frame(p)| && Stream(inbox) == Frame(p)[..|Stream(inbox)|]
    ensures ReadFrame(inbox).0 == None
  {
    var (f, rest) := ReadFrame(inbox);
    if f.Some? {
      var s := Stream(inbox);
      assert s[..4] == Frame(f.value)[..4] == Be32(|f.value|);
      assert s[..4] == Frame(p)[..4] == Be32(|p|);
      Be32Injective(|f.value|, |p|);
      assert false;
    }
  }

  /** One `recv(n)` on segments that all carry bytes returns a non-empty prefix of them. */
  lemma RecvDelivered(segs: Inbox, tail: Inbox, n: nat) returns (got: seq<byte>, segs': Inbox)
    requires Delivers(segs) && segs != [] && n > 0
    ensures Recv(segs + tail, n) == (Got(got), segs' + tail)
    ensures |got| == Min(n, |segs[0].bytes|) && got != []
    ensures Delivers(segs') && Stream(segs) == got + Stream(segs')
  {
    var c := segs[0].bytes;
    var inbox := segs + tail;
    assert inbox[0] == segs[0] && inbox[1..] == segs[1..] + tail;
    assert Stream(segs) == c + Stream(segs[1..]);
    if |c| <= n {
      got, segs' := c, segs[1..];
    } else {
      got, segs' := c[..n], [Data(c[n..])] + segs[1..];
      assert segs'[1..] == segs[1..];
      assert [Data(c[n..])] + inbox[1..] == segs' + tail;
      assert c == c[..n] + c[n..];
    }
  }

  /**
    Payload round trip: however the remaining payload bytes are split into segments,
    the loop collects exactly them and leaves what follows untouched.
   */
  lemma {:induction false} PayloadRoundTrip(segs: Inbox, size: nat, acc: seq<byte>, tail: Inbox)
    requires Delivers(segs) && |acc| + |Stream(segs)| == size
    ensures ReadPayload(segs + tail, size, acc) == (Some(acc + Stream(segs)), tail)
    decreases size - |acc|
  {
    if segs == [] {
      assert segs + tail == tail;
      assert acc + Stream(segs) == acc;
    } else {
      var got, segs' := RecvDelivered(segs, tail, Min(MaxChunk, size - |acc|));
      PayloadRoundTrip(segs', size, acc + got, tail);
      assert acc + got + Stream(segs') == acc + Stream(segs);
    }
  }

  /**
    Frame round trip: a frame whose header arrives whole in the first read, and whose
    payload arrives in any chunking, decodes to its payload, and the decoder stops
    exactly at its end.
   */
  lemma FrameRoundTrip(p: seq<byte>, segs: Inbox, tail: Inbox)
    requires |p| < Two32
    requires Delivers(segs) && Stream(segs) == Frame(p)
    requires segs != [] && |segs[0].bytes| >= 4
    ensures ReadFrame(segs + tail) == (Some(p), tail)
  {
    var header, segs' := RecvDelivered(segs, tail, 4);
    assert header == Frame(p)[..4] == Be32(|p|);
    Be32ValueOfBe32(|p|);
    assert Stream(segs') == p;
    PayloadRoundTrip(segs', |p|, [], tail);
    assert [] + Stream(segs') == p;
  }

  /** A declared length of zero is a complete frame with the empty payload, `b''`, and nothing after the header is read. */
  lemma ZeroLengthFrame(x: seq<byte>, tail: Inbox)
    ensures ReadFrame([Data([0, 0, 0, 0] + x)] + tail) == (Some([]), if x == [] then tail else [Data(x)] + tail)
  {
    var inbox := [Data([0, 0, 0, 0] + x)] + tail;
    assert inbox[0] == Data([0, 0, 0, 0] + x) && inbox[1..] == tail;
    assert ([0, 0, 0, 0] + x)[..4] == [0, 0, 0, 0] && ([0, 0, 0, 0] + x)[4..] == x;
    var (h, rest) := Recv(inbox, 4);
    assert h == Got([0, 0, 0, 0]);
  }

  /** An empty read in the middle of a payload ends the frame with `None`, whatever follows it. */
  lemma EmptyChunkEndsPayload(size: nat, acc: seq<byte>, tail: Inbox)
    requires |acc| < size
    ensures ReadPayload([Data([])] + tail, size, acc).0 == None
  {
  }
}
