/**
  End-to-end scenarios of the hub: a camera that handshakes, sends the five-byte frame
  `hello` and closes, relayed to two controllers of which one has gone away.
 */
module Scenarios {
  import opened Bytes
  import opened Wrappers
  import opened Wire
  import opened Utf8
  import opened Framing
  import opened Handshake
  import opened Message
  import opened Hub

  /** The payload `hello`. */
  const Hello: seq<byte> := [0x68, 0x65, 0x6C, 0x6C, 0x6F]

  /** A camera's whole transmission: a ten-byte handshake, one frame of `p`; then it closes. */
  function Transmission(handshake: seq<byte>, p: seq<byte>): Inbox
    requires |p| < Two32
  {
    [Data(handshake + Frame(p))]
  }

  /** A ten-byte camera handshake followed by one non-empty frame: exactly that frame is broadcast. */
  lemma CameraSession(handshake: seq<byte>, p: seq<byte>)
    requires |handshake| == HandshakeSize && Classify(Got(handshake)) == CameraHandler
    requires 0 < |p| < Two32
    ensures ReadHandshake(Transmission(handshake, p)).0 == CameraHandler
    ensures CameraFrames(ReadHandshake(Transmission(handshake, p)).1) == [p]
  {
    var c := handshake + Frame(p);
    assert c[..10] == handshake && c[10..] == Frame(p);
    var rest := [Data(Frame(p))];
    assert Transmission(handshake, p)[1..] == [];
    assert [Data(c[10..])] + [] == rest;
    assert ReadHandshake(Transmission(handshake, p)) == (CameraHandler, rest);
    assert rest + [] == rest;
    FrameIsBroadcast(p, rest, []);
    assert CameraFrames([]) == [];
  }

  /** The marker padded with spaces to ten bytes. */
  lemma PaddedMarkerBytes()
    ensures |Encode("CAMERA    ")| == HandshakeSize
    ensures Classify(Got(Encode("CAMERA    "))) == CameraHandler
  {
    EncodeAscii("CAMERA    ");
    PaddedMarkerIsCamera();
  }

  /** The frame of `hello` starts with the length `00 00 00 05`. */
  lemma HelloFrame()
    ensures Frame(Hello) == [0, 0, 0, 5] + Hello
  {
    assert |Hello| == 5;
    assert Be32(5) == [0, 0, 0, 5];
  }

  /** One fan-out over two controllers where only the send to `k2` fails. */
  lemma OneOfTwoGone<S>(k1: string, k2: string, s1: S, s2: S, sendOk: (nat, string) -> bool, message: seq<byte>)
    requires k1 != k2 && sendOk(0, k1) && !sendOk(0, k2)
    ensures Survivors(map[k1 := s1][k2 := s2], sendOk, 1) == map[k1 := s1]
    ensures DeliveredAt(map[k1 := s1][k2 := s2], sendOk, 0, message) == map[k1 := message]
  {
    var m := map[k1 := s1][k2 := s2];
    assert Survivors(m, sendOk, 0) == m;
    assert PruneAt(m, sendOk, 0) == map[k1 := s1];
  }

  /**
    Controllers `k1` and `k2` are registered and every send to `k2` fails. The camera's
    frame reaches `k1` as `00 00 00 05`, `hello` and the camera's id padded to 32 bytes;
    `k2` receives nothing and is removed; the camera is unregistered at the end.
   */
  method TwoControllersOneGone<Sock>(camera: PeerAddress, k1: string, k2: string, s1: Sock, s2: Sock, s3: Sock)
    returns (role: Dispatch, frames: seq<seq<byte>>, log: seq<map<string, seq<byte>>>,
             cameras: map<string, Sock>, controllers: map<string, Sock>)
    requires k1 != k2
    ensures role == CameraHandler && frames == [Hello]
    ensures log == [map[k1 := [0, 0, 0, 5] + Hello + IdField(PeerId(camera))]]
    ensures |IdField(PeerId(camera))| == 32
    ensures cameras == map[] && controllers == map[k1 := s1]
  {
    var hub := new VideoHub<Sock>();
    hub.RegisterController(k1, s1);
    hub.RegisterController(k2, s2);
    var sendOk := (n: nat, c: string) => c != k2;
    PaddedMarkerBytes();
    CameraSession(Encode("CAMERA    "), Hello);
    role, frames, log := hub.Accept(camera, s3, Transmission(Encode("CAMERA    "), Hello), sendOk);
    cameras, controllers := hub.clients, hub.controllers;
    OneOfTwoGone(k1, k2, s1, s2, sendOk, BroadcastMessage(Hello, PeerId(camera)));
    HelloFrame();
    PeerIdFieldRoundTrip(camera);
  }
}
