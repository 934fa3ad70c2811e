/**
  `RenderVideoHub`'s registry and its two handlers. The hub keeps two dictionaries
  keyed by the peer's `"ip:port"`: `clients` for cameras and `controllers`. The camera
  handler reads frames until the stream ends and sends each frame to a snapshot of the
  controllers, deleting every controller whose send fails; the controller handler
  registers its connection and removes it again when its heartbeat write fails.

  The model runs one operation at a time. Whether a send succeeds is an oracle
  `sendOk(k, id)`: does the send of the k-th frame to controller `id` succeed.
 */
module Hub {
  import opened Bytes
  import opened Wrappers
  import opened Wire
  import opened Framing
  import opened Handshake
  import opened Message

  /**
    The frames the camera loop broadcasts: every complete frame up to the first
    `None` or empty payload (`if not frame_data: break`).
   */
  function CameraFrames(conn: Inbox): (fs: seq<seq<byte>>)
    ensures forall i | 0 <= i < |fs| :: fs[i] != [] && |fs[i]| < Two32
    decreases Weight(conn)
  {
    var (f, rest) := ReadFrame(conn);
    if f.None? || f.value == [] then [] else [f.value] + CameraFrames(rest)
  }

  /* One turn of the camera loop, in terms of `CameraFrames`. */
  lemma CameraFramesStep(conn: Inbox, frame: Option<seq<byte>>, rest: Inbox)
    requires (frame, rest) == ReadFrame(conn)
    ensures frame.None? || frame.value == [] ==> CameraFrames(conn) == []
    ensures frame.Some? && frame.value != [] ==> CameraFrames(conn) == [frame.value] + CameraFrames(rest)
  {
  }

  /** The wire form of a sequence of frames sent back to back. */
  function FramesOnWire(fs: seq<seq<byte>>): seq<byte>
    requires forall i | 0 <= i < |fs| :: |fs[i]| < Two32
  {
    if fs == [] then [] else Frame(fs[0]) + FramesOnWire(fs[1..])
  }

  /** The frames broadcast are, in order, the frames at the start of the camera's stream. */
  lemma {:induction false} CameraFramesInOrder(conn: Inbox)
    ensures FramesOnWire(CameraFrames(conn)) <= Stream(conn)
    decreases Weight(conn)
  {
    var (f, rest) := ReadFrame(conn);
    if f.Some? && f.value != [] {
      var fs := CameraFrames(conn);
      assert fs[0] == f.value && fs[1..] == CameraFrames(rest);
      CameraFramesInOrder(rest);
    }
  }

  /** A complete non-empty frame is broadcast and the loop reads on after it. */
  lemma FrameIsBroadcast(p: seq<byte>, segs: Inbox, tail: Inbox)
    requires 0 < |p| < Two32
    requires Delivers(segs) && Stream(segs) == Frame(p)
    requires segs != [] && |segs[0].bytes| >= 4
    ensures CameraFrames(segs + tail) == [p] + CameraFrames(tail)
  {
    FrameRoundTrip(p, segs, tail);
  }

  /** A frame of declared length 0 stops the camera loop: nothing of it or after it is broadcast. */
  lemma EmptyFrameStopsStream(segs: Inbox, tail: Inbox)
    requires Delivers(segs) && Stream(segs) == Frame([])
    requires segs != [] && |segs[0].bytes| >= 4
    ensures CameraFrames(segs + tail) == []
  {
    FrameRoundTrip([], segs, tail);
  }

  /** The controllers left after the fan-out of frame `k`: those whose send of it succeeds. */
  function PruneAt<S>(m: map<string, S>, sendOk: (nat, string) -> bool, k: nat): map<string, S> {
    map c | c in m && sendOk(k, c) :: m[c]
  }

  /** What the fan-out of frame `k` delivers: `message` to each controller whose send succeeds. */
  function DeliveredAt<S>(m: map<string, S>, sendOk: (nat, string) -> bool, k: nat, message: seq<byte>)
    : map<string, seq<byte>>
  {
    map c | c in m && sendOk(k, c) :: message
  }

  /** The controllers left after the fan-outs of the first `k` frames. */
  function Survivors<S>(m: map<string, S>, sendOk: (nat, string) -> bool, k: nat): map<string, S>
    decreases k
  {
    if k == 0 then m else PruneAt(Survivors(m, sendOk, k - 1), sendOk, k - 1)
  }

  /** A controller survives `k` fan-outs exactly when each of its `k` sends succeeded; its connection is unchanged. */
  lemma {:induction false} SurvivorsExactly<S>(m: map<string, S>, sendOk: (nat, string) -> bool, k: nat, c: string)
    ensures c in Survivors(m, sendOk, k) <==> c in m && forall j | 0 <= j < k :: sendOk(j, c)
    ensures c in Survivors(m, sendOk, k) ==> Survivors(m, sendOk, k)[c] == m[c]
  {
    if k > 0 {
      SurvivorsExactly(m, sendOk, k - 1, c);
      if c in m && forall j | 0 <= j < k - 1 :: sendOk(j, c) {
        if sendOk(k - 1, c) {
          assert forall j | 0 <= j < k :: sendOk(j, c) by {
            forall j | 0 <= j < k ensures sendOk(j, c) {
              if j < k - 1 {} else { assert j == k - 1; }
            }
          }
        }
      }
    }
  }

  /**
    What the fan-outs of `frames` deliver, frame by frame: entry `k` maps each controller
    that survived the first `k` fan-outs and whose send of frame `k` succeeds to the
    message for that frame.
   */
  function Deliveries<S>(m: map<string, S>, sendOk: (nat, string) -> bool, cameraId: string,
                         frames: seq<seq<byte>>): (log: seq<map<string, seq<byte>>>)
    requires forall i | 0 <= i < |frames| :: |frames[i]| < Two32
    ensures |log| == |frames|
    decreases |frames|
  {
    if frames == [] then []
    else
      var k := |frames| - 1;
      Deliveries(m, sendOk, cameraId, frames[..k])
        + [DeliveredAt(Survivors(m, sendOk, k), sendOk, k, BroadcastMessage(frames[k], cameraId))]
  }

  /* The log grows by what the next fan-out delivers. */
  lemma DeliveriesNext<S>(m: map<string, S>, sendOk: (nat, string) -> bool, cameraId: string,
                          frames: seq<seq<byte>>, frame: seq<byte>)
    requires forall i | 0 <= i < |frames| :: |frames[i]| < Two32
    requires |frame| < Two32
    ensures forall i | 0 <= i < |frames + [frame]| :: |(frames + [frame])[i]| < Two32
    ensures Deliveries(m, sendOk, cameraId, frames + [frame])
         == Deliveries(m, sendOk, cameraId, frames)
            + [DeliveredAt(Survivors(m, sendOk, |frames|), sendOk, |frames|, BroadcastMessage(frame, cameraId))]
  {
    assert (frames + [frame])[..|frames|] == frames;
  }

  /**
    What a controller receives of frame `k`: the message `BE32(len) ++ frame ++ id`, exactly
    when it was registered and its sends of frames `0..k` all succeeded.
   */
  lemma {:induction false} DeliveriesExactly<S>(m: map<string, S>, sendOk: (nat, string) -> bool, cameraId: string,
                                                frames: seq<seq<byte>>, k: nat, c: string)
    requires forall i | 0 <= i < |frames| :: |frames[i]| < Two32
    requires k < |frames|
    ensures c in Deliveries(m, sendOk, cameraId, frames)[k] <==> c in m && forall j | 0 <= j <= k :: sendOk(j, c)
    ensures c in Deliveries(m, sendOk, cameraId, frames)[k] ==>
              Deliveries(m, sendOk, cameraId, frames)[k][c] == BroadcastMessage(frames[k], cameraId)
    decreases |frames|
  {
    var n := |frames| - 1;
    if k < n {
      DeliveriesExactly(m, sendOk, cameraId, frames[..n], k, c);
      assert frames[..n][k] == frames[k];
    } else {
      SurvivorsExactly(m, sendOk, k, c);
      if c in m && (forall j | 0 <= j < k :: sendOk(j, c)) && sendOk(k, c) {
        assert forall j | 0 <= j <= k :: sendOk(j, c) by {
          forall j | 0 <= j <= k ensures sendOk(j, c) {
            if j < k {} else { assert j == k; }
          }
        }
      }
    }
  }

  /* Restates the outcome of one fan-out, given pointwise, as `PruneAt` and `DeliveredAt`. */
  lemma FanoutStep<S>(before: map<string, S>, after: map<string, S>, sent: map<string, seq<byte>>,
                      sendOk: (nat, string) -> bool, k: nat, message: seq<byte>)
    requires forall c :: c in after <==> c in before && sendOk(k, c)
    requires forall c | c in after :: after[c] == before[c]
    requires sent.Keys == after.Keys && forall c | c in sent :: sent[c] == message
    ensures after == PruneAt(before, sendOk, k)
    ensures sent == DeliveredAt(before, sendOk, k, message)
  {
  }

  /* The controllers after `k + 1` fan-outs, one unfolding of `Survivors`. */
  lemma SurvivorsNext<S>(m: map<string, S>, sendOk: (nat, string) -> bool, k: nat)
    ensures Survivors(m, sendOk, k + 1) == PruneAt(Survivors(m, sendOk, k), sendOk, k)
  {
  }

  /* One turn of the camera loop that broadcasts `frame` keeps the loop's account of the frames. */
  lemma CameraFramesNext(inbox: Inbox, frames: seq<seq<byte>>, rest: Inbox, frame: seq<byte>, next: Inbox)
    requires frames + CameraFrames(rest) == CameraFrames(inbox)
    requires (Some(frame), next) == ReadFrame(rest) && frame != []
    ensures (frames + [frame]) + CameraFrames(next) == CameraFrames(inbox)
  {
    CameraFramesStep(rest, Some(frame), next);
    assert (frames + [frame]) + CameraFrames(next) == frames + CameraFrames(rest);
  }

  class VideoHub<Sock> {
    /** Camera connections by `"ip:port"`. */
    var clients: map<string, Sock>
    /** Controller connections by `"ip:port"`. */
    var controllers: map<string, Sock>

    /** Both registries start empty. */
    constructor ()
      ensures clients == map[] && controllers == map[]
    {
      clients := map[];
      controllers := map[];
    }

    /** `self.clients[client_id] = conn`: inserts or replaces. */
    method RegisterCamera(id: string, conn: Sock)
      modifies this
      ensures clients == old(clients)[id := conn]
      ensures controllers == old(controllers)
    {
      clients := clients[id := conn];
    }

    /** The camera handler's `finally`: removes the entry if it is there, so a second call changes nothing. */
    method UnregisterCamera(id: string)
      modifies this
      ensures clients == old(clients) - {id}
      ensures id !in old(clients) ==> clients == old(clients)
      ensures controllers == old(controllers)
    {
      if id in clients {
        clients := clients - {id};
      }
    }

    /** `self.controllers[controller_id] = conn`: inserts or replaces. */
    method RegisterController(id: string, conn: Sock)
      modifies this
      ensures controllers == old(controllers)[id := conn]
      ensures clients == old(clients)
    {
      controllers := controllers[id := conn];
    }

    /**
      The controller handler's `finally`, reached when a heartbeat write fails: removes
      the entry if it is there, so a controller already pruned by a fan-out is left alone.
     */
    method UnregisterController(id: string)
      modifies this
      ensures controllers == old(controllers) - {id}
      ensures id !in old(controllers) ==> controllers == old(controllers)
      ensures clients == old(clients)
    {
      if id in controllers {
        controllers := controllers - {id};
      }
    }

    /**
      One fan-out: every controller of the snapshot is sent the message; exactly those
      whose send fails are deleted, the others keep their entry and receive it, and the
      cameras are untouched. `sent` maps each controller that received the frame to the
      bytes it received.
     */
    method Broadcast(frame: seq<byte>, cameraId: string, sendOk: (nat, string) -> bool, k: nat)
      returns (sent: map<string, seq<byte>>)
      requires |frame| < Two32
      modifies this
      ensures controllers == PruneAt(old(controllers), sendOk, k)
      ensures sent == DeliveredAt(old(controllers), sendOk, k, BroadcastMessage(frame, cameraId))
      ensures clients == old(clients)
    {
      var message := BroadcastMessage(frame, cameraId);
      var snapshot := controllers;
      var pending := snapshot.Keys;
      sent := map[];
      while pending != {}
        invariant pending <= snapshot.Keys
        invariant controllers.Keys == set c | c in snapshot && (c in pending || sendOk(k, c))
        invariant forall c | c in controllers :: controllers[c] == snapshot[c]
        invariant sent.Keys == set c | c in snapshot && c !in pending && sendOk(k, c)
        invariant forall c | c in sent :: sent[c] == message
        invariant clients == old(clients)
        decreases pending
      {
        var id :| id in pending;
        if sendOk(k, id) {
          sent := sent[id := message];
        } else {
          // `del self.controllers[controller_id]` cannot raise: the entry is still there.
          assert id in controllers;
          controllers := controllers - {id};
        }
        pending := pending - {id};
      }
      FanoutStep(snapshot, controllers, sent, sendOk, k, message);
    }

    /**
      The loop of `handle_camera_client`: broadcasts every frame of the camera's stream
      in order until the stream ends. `log[k]` is what each controller received of
      frame `k`.
     */
    method RelayFrames(cameraId: string, inbox: Inbox, sendOk: (nat, string) -> bool)
      returns (frames: seq<seq<byte>>, log: seq<map<string, seq<byte>>>)
      modifies this
      ensures frames == CameraFrames(inbox)
      ensures controllers == Survivors(old(controllers), sendOk, |frames|)
      ensures log == Deliveries(old(controllers), sendOk, cameraId, frames)
      ensures clients == old(clients)
    {
      ghost var controllers0 := controllers;
      var rest := inbox;
      frames, log := [], [];
      while true
        invariant frames + CameraFrames(rest) == CameraFrames(inbox)
        invariant controllers == Survivors(controllers0, sendOk, |frames|)
        invariant forall i | 0 <= i < |frames| :: |frames[i]| < Two32
        invariant log == Deliveries(controllers0, sendOk, cameraId, frames)
        invariant clients == old(clients)
        decreases Weight(rest)
      {
        ghost var requests;
        var frame, next;
        frame, next, requests := ReceiveFrame(rest);
        if frame.None? || frame.value == [] {
          CameraFramesStep(rest, frame, next);
          break;
        }
        var sent := Broadcast(frame.value, cameraId, sendOk, |frames|);
        CameraFramesNext(inbox, frames, rest, frame.value, next);
        SurvivorsNext(controllers0, sendOk, |frames|);
        DeliveriesNext(controllers0, sendOk, cameraId, frames, frame.value);
        frames, log := frames + [frame.value], log + [sent];
        rest := next;
      }
    }

    /**
      `handle_camera_client`: registers the camera under its `"ip:port"`, relays its
      frames, and unregisters it when the stream ends.
     */
    method HandleCamera(addr: PeerAddress, conn: Sock, inbox: Inbox, sendOk: (nat, string) -> bool)
      returns (frames: seq<seq<byte>>, log: seq<map<string, seq<byte>>>)
      modifies this
      ensures frames == CameraFrames(inbox)
      ensures clients == old(clients) - {PeerId(addr)}
      ensures controllers == Survivors(old(controllers), sendOk, |frames|)
      ensures log == Deliveries(old(controllers), sendOk, PeerId(addr), frames)
    {
      var clientId := PeerId(addr);
      RegisterCamera(clientId, conn);
      frames, log := RelayFrames(clientId, inbox, sendOk);
      UnregisterCamera(clientId);
    }

    /**
      One accepted connection: the handshake read, then the camera handler, the
      controller handler's registration, or closing without touching the registry.
     */
    method Accept(addr: PeerAddress, conn: Sock, inbox: Inbox, sendOk: (nat, string) -> bool)
      returns (role: Dispatch, frames: seq<seq<byte>>, log: seq<map<string, seq<byte>>>)
      modifies this
      ensures role == ReadHandshake(inbox).0
      ensures role == Close ==> clients == old(clients) && controllers == old(controllers)
      ensures role == ControllerHandler ==>
        controllers == old(controllers)[PeerId(addr) := conn] && clients == old(clients)
      ensures role != CameraHandler ==> frames == [] && log == []
      ensures role == CameraHandler ==>
        && frames == CameraFrames(ReadHandshake(inbox).1)
        && clients == old(clients) - {PeerId(addr)}
        && controllers == Survivors(old(controllers), sendOk, |frames|)
        && log == Deliveries(old(controllers), sendOk, PeerId(addr), frames)
    {
      var (dispatch, rest) := ReadHandshake(inbox);
      role := dispatch;
      frames, log := [], [];
      match role {
        case CameraHandler =>
          frames, log := HandleCamera(addr, conn, rest, sendOk);
        case ControllerHandler =>
          RegisterController(PeerId(addr), conn);
        case Close =>
      }
    }
  }
}
