/**
  The message the camera handler sends to each controller for one frame:
  `struct.pack('>I', len(frame))`, the frame, then the camera's `"ip:port"` id as
  UTF-8, `ljust(32)`. `ljust` pads but never truncates, so an id of more than 32
  bytes is sent whole.
 */
module Message {
  import opened Bytes
  import opened Wrappers
  import opened Utf8
  import opened Text
  import opened Framing

  /** The width `ljust` pads the camera id to. */
  const IdWidth: nat := 32

  /** `addr` as `socket.accept` gives it for an IPv4 peer: four octets and a port. */
  datatype PeerAddress = PeerAddress(o1: byte, o2: byte, o3: byte, o4: byte, port: Port)

  /** A TCP port number. */
  type Port = p: nat | p < 0x1_0000

  /** `f"{addr[0]}:{addr[1]}"`: the dotted-decimal host, a colon and the port. */
  function PeerId(a: PeerAddress): string {
    Decimal(a.o1) + "." + Decimal(a.o2) + "." + Decimal(a.o3) + "." + Decimal(a.o4)
    + ":" + Decimal(a.port)
  }

  /** `client_id.encode('utf-8').ljust(32)`. */
  function IdField(id: string): (r: seq<byte>)
    ensures |r| == Max(|Encode(id)|, IdWidth) && r[..|Encode(id)|] == Encode(id)
  {
    LJust(Encode(id), IdWidth)
  }

  /** The three segments sent to a controller for one frame. */
  function BroadcastMessage(frame: seq<byte>, cameraId: string): (r: seq<byte>)
    requires |frame| < Two32
    ensures |r| >= 4 + |frame| + IdWidth
  {
    Frame(frame) + IdField(cameraId)
  }

  /**
    A controller's reading of one message with the fixed layout: length, payload,
    32-byte id field, and whatever follows.
   */
  function ParseMessage(wire: seq<byte>): Option<(seq<byte>, seq<byte>, seq<byte>)> {
    if |wire| < 4 then None
    else
      var n := Be32Value(wire[..4]);
      if |wire| < 4 + n + IdWidth then None
      else Some((wire[4..4 + n], wire[4 + n..4 + n + IdWidth], wire[4 + n + IdWidth..]))
  }

  /**
    Read with the fixed layout, a message gives back the frame and the first 32 bytes
    of the id field; only an id longer than 32 bytes leaves bytes over.
   */
  lemma MessageLayout(frame: seq<byte>, cameraId: string)
    requires |frame| < Two32
    ensures ParseMessage(BroadcastMessage(frame, cameraId)).Some?
    ensures ParseMessage(BroadcastMessage(frame, cameraId)).value.0 == frame
    ensures ParseMessage(BroadcastMessage(frame, cameraId)).value.1 == IdField(cameraId)[..IdWidth]
    ensures |Encode(cameraId)| <= IdWidth ==> ParseMessage(BroadcastMessage(frame, cameraId)).value.2 == []
    ensures |Encode(cameraId)| > IdWidth ==> ParseMessage(BroadcastMessage(frame, cameraId)).value.2 == Encode(cameraId)[IdWidth..]
  {
    var m := BroadcastMessage(frame, cameraId);
    var n := |frame|;
    assert m[..4] == Be32(n);
    Be32ValueOfBe32(n);
    assert m[4..4 + n] == frame;
    assert m[4 + n..] == IdField(cameraId);
    if |Encode(cameraId)| > IdWidth {
      assert IdField(cameraId) == Encode(cameraId);
    }
  }

  /** An id of 32 bytes or more is sent unchanged, not cut to the field width. */
  lemma LongIdNotTruncated(cameraId: string)
    requires |Encode(cameraId)| >= IdWidth
    ensures IdField(cameraId) == Encode(cameraId)
  {
  }

  /** The id of an IPv4 peer is ASCII and at most 21 bytes long. */
  lemma PeerIdShort(a: PeerAddress)
    ensures IsAscii(PeerId(a)) && |Encode(PeerId(a))| <= 21
  {
    assert Pow10(3) == 1000 && Pow10(5) == 100000;
    DecimalLength(a.o1, 3);
    DecimalLength(a.o2, 3);
    DecimalLength(a.o3, 3);
    DecimalLength(a.o4, 3);
    DecimalLength(a.port, 5);
    var id := PeerId(a);
    assert IsAscii(id) by {
      forall i | 0 <= i < |id| ensures id[i] as int < 0x80 {
        assert IsDigit(id[i]) || id[i] == '.' || id[i] == ':';
      }
    }
    EncodeAscii(id);
  }

  /**
    For an IPv4 camera the id field is exactly 32 bytes, and removing the padding and
    decoding it gives the camera's id back.
   */
  lemma PeerIdFieldRoundTrip(a: PeerAddress)
    ensures |IdField(PeerId(a))| == IdWidth
    ensures Decode(TrimPadding(IdField(PeerId(a)))) == Some(PeerId(a))
  {
    var id := PeerId(a);
    PeerIdShort(a);
    EncodeAscii(id);
    var e := Encode(id);
    assert e[|e| - 1] == id[|id| - 1] as int;
    assert IsDigit(id[|id| - 1]);
    TrimPaddingOfLJust(e, IdWidth);
    DecodeEncode(id);
  }
}
