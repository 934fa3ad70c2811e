/**
  Role classification in `RenderVideoHub.start`: the first `recv(10)` of a new
  connection is decoded as UTF-8 and stripped; exactly `"CAMERA"` starts the camera
  handler, every other decodable token (the empty one included) the controller
  handler, and a failing read or an undecodable token closes the connection.
 */
module Handshake {
  import opened Bytes
  import opened Wrappers
  import opened Wire
  import opened Utf8
  import opened Text

  /** The size of the handshake read. */
  const HandshakeSize: nat := 10

  const CameraMarker: string := "CAMERA"

  /** What `start` does with an accepted connection. */
  datatype Dispatch = CameraHandler | ControllerHandler | Close

  /** The decision taken on the result of the handshake read. */
  function Classify(first: RecvResult): Dispatch {
    match first
    case Raised => Close
    case Got(b) =>
      match Decode(b)
      case None => Close
      case Some(token) => if Strip(token) == CameraMarker then CameraHandler else ControllerHandler
  }

  /** The handshake on a new connection: the decision and what is left to read. */
  function ReadHandshake(conn: Inbox): (r: (Dispatch, Inbox))
    ensures r.0 != Close ==> exists taken :: |taken| <= HandshakeSize && Stream(conn) == taken + Stream(r.1)
  {
    var (first, rest) := Recv(conn, HandshakeSize);
    (Classify(first), rest)
  }

  /** The marker with whitespace (in the sense of `str.isspace`) on either side, as UTF-8. */
  ghost predicate PaddedMarker(b: seq<byte>) {
    exists w1, w2 :: AllSpace(w1) && AllSpace(w2) && b == Encode(w1 + CameraMarker + w2)
  }

  /** A read selects the camera role exactly when it is the marker padded with whitespace. */
  lemma CameraIff(b: seq<byte>)
    ensures Classify(Got(b)) == CameraHandler <==> PaddedMarker(b)
  {
    if Classify(Got(b)) == CameraHandler {
      CameraOnlyIfPadded(b);
    }
    if PaddedMarker(b) {
      var w1, w2 :| AllSpace(w1) && AllSpace(w2) && b == Encode(w1 + CameraMarker + w2);
      CameraIfPadded(w1, w2);
    }
  }

  lemma CameraIfPadded(w1: string, w2: string)
    requires AllSpace(w1) && AllSpace(w2)
    ensures Classify(Got(Encode(w1 + CameraMarker + w2))) == CameraHandler
  {
    var t := w1 + CameraMarker + w2;
    DecodeEncode(t);
    assert Trimmed(CameraMarker);
    StripPadded(w1, CameraMarker, w2);
  }

  lemma CameraOnlyIfPadded(b: seq<byte>)
    requires Classify(Got(b)) == CameraHandler
    ensures PaddedMarker(b)
  {
    var t := Decode(b).value;
    var w1, w2 := StripParts(t);
    EncodeDecode(b);
    assert b == Encode(w1 + CameraMarker + w2);
  }

  /** A connection is closed exactly when the read raises or its bytes are not UTF-8 text. */
  lemma CloseIff(first: RecvResult)
    ensures Classify(first) == Close <==> first.Raised? || !exists s :: Encode(s) == first.bytes
  {
    if first.Got? {
      DecodableIff(first.bytes);
    }
  }

  /** Every other text, the empty one included, selects the controller role. */
  lemma ControllerIff(b: seq<byte>)
    ensures Classify(Got(b)) == ControllerHandler <==> exists s :: Encode(s) == b && Strip(s) != CameraMarker
  {
    if Classify(Got(b)) == ControllerHandler {
      var t := ControllerText(b);
    }
    if exists s :: Encode(s) == b && Strip(s) != CameraMarker {
      var s :| Encode(s) == b && Strip(s) != CameraMarker;
      ClassifyText(s);
    }
  }

  /* The text a controller's handshake decodes to. */
  lemma ControllerText(b: seq<byte>) returns (t: string)
    requires Classify(Got(b)) == ControllerHandler
    ensures Encode(t) == b && Strip(t) != CameraMarker
  {
    t := Decode(b).value;
    EncodeDecode(b);
  }

  /** Any text is classified by its stripped form. */
  lemma ClassifyText(t: string)
    ensures Classify(Got(Encode(t))) == if Strip(t) == CameraMarker then CameraHandler else ControllerHandler
  {
    DecodeEncode(t);
  }

  /** The marker padded to the ten handshake bytes with spaces selects the camera role. */
  lemma PaddedMarkerIsCamera()
    ensures Classify(Got(Encode("CAMERA    "))) == CameraHandler
  {
    assert "CAMERA    " == [] + CameraMarker + "    ";
    CameraIfPadded([], "    ");
  }

  /** The empty read of a peer that closes at once selects the controller role. */
  lemma EmptyTokenIsController()
    ensures Classify(Got([])) == ControllerHandler
  {
  }

  /** Letter case matters: a lower-case marker, however padded, selects the controller role. */
  lemma LowerCaseIsController(w1: string, w2: string)
    requires AllSpace(w1) && AllSpace(w2)
    ensures Classify(Got(Encode(w1 + "camera" + w2))) == ControllerHandler
  {
    StripPadded(w1, "camera", w2);
    ClassifyText(w1 + "camera" + w2);
  }

  /**
    A read that starts with a byte no UTF-8 sequence starts with (a continuation byte,
    an overlong lead `C0`/`C1`, or `F5`..`FF`), or a failing read, closes the connection.
   */
  lemma UndecodableCloses(b: seq<byte>)
    requires b != [] && (0x80 <= b[0] <= 0xC1 || 0xF5 <= b[0])
    ensures Classify(Got(b)) == Close
    ensures Classify(Raised) == Close
  {
    assert DecodeFirst(b).None?;
  }

  /**
    The handshake read stops at ten bytes even in the middle of a character: nine
    ASCII bytes followed by a two-byte character such as 'é' (`C3 A9`) close the
    connection.
   */
  lemma SplitCharacterCloses(ascii: seq<byte>, lead: byte, cont: byte, rest: seq<byte>)
    requires |ascii| == HandshakeSize - 1 && forall i | 0 <= i < |ascii| :: ascii[i] < 0x80
    requires 0xC2 <= lead <= 0xDF && IsContinuation(cont)
    ensures ReadHandshake([Data(ascii + [lead, cont] + rest)]).0 == Close
  {
    var c := ascii + [lead, cont] + rest;
    var b := c[..10];
    assert b == ascii + [lead];
    assert b[9..] == [lead];
    DecodeAt(b, 9);
  }

  /* Decoding fails when an ASCII prefix is followed by a lone lead byte. */
  lemma {:induction false} DecodeAt(b: seq<byte>, k: nat)
    requires k < |b| && |b[k..]| == 1 && 0xC2 <= b[k] <= 0xDF
    requires forall i | 0 <= i < k :: b[i] < 0x80
    ensures Decode(b).None?
    decreases k
  {
    if k > 0 {
      assert b[1..][k - 1..] == b[k..];
      DecodeAt(b[1..], k - 1);
    }
  }
}
