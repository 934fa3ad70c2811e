# Video hub relay: a Dafny model

`RenderVideoHub` (`server_render.py`) is a TCP relay. A connection is either a camera or
a controller:

- Each new connection's first `recv(10)` is decoded as UTF-8 and stripped of whitespace.
  Exactly `"CAMERA"` makes it a camera. Every other decodable token makes it a controller.
  A failing read or bytes that are not UTF-8 close the connection.
- A camera sends length-prefixed frames: a 4-byte big-endian unsigned length, then that
  many payload bytes.
- For every frame, the hub sends each controller in a snapshot of its controller
  registry one message: the length, the payload, and the camera's `"ip:port"` id as
  UTF-8, `ljust`-padded to 32 bytes. A controller whose send fails is deleted from the
  registry. The rest are still served.
- Controllers only hold their connection open. The hub removes one when its heartbeat
  write fails.

The model covers this sequential core. Each module follows one part of the program:

- `Bytes`: bytes, the `>I` packing used by `struct`, the space padding used by
  `bytes.ljust`.
- `Utf8`: `str.encode('utf-8')` and strict `bytes.decode('utf-8')`. The decoder accepts
  exactly the well-formed sequences of table 3-7 of the Unicode Standard.
- `Text`: `str.strip()`, with Python's `str.isspace` whitespace set, and `str(int)`.
- `Wire`: the receiving side of a socket, as a value.
  - An `Inbox` is a sequence of segments.
  - `recv(n)` returns at most `n` bytes of the first segment and keeps the rest for the
    next call.
  - An empty segment or an exhausted inbox is the peer closing (`b''`).
  - `Reset` is a `recv` that raises.
- `Framing`: `receive_frame_data`. It has two forms:
  - a recursive specification, `ReadFrame` / `ReadPayload`;
  - the source's accumulation loop, the method `ReceiveFrame`, proved equal to it.
- `Handshake`: the classification in `start`.
- `Message`: the bytes sent to a controller for one frame, and the camera id.
- `Hub`: the class `VideoHub` with its two registries (`clients` for cameras,
  `controllers`). It has the register and unregister steps of both handlers, the
  snapshot-and-prune fan-out `Broadcast`, the camera handler, and `Accept`. `Accept`
  dispatches one connection on its handshake.
- `Scenarios`: end-to-end scenarios. A camera relays `hello` to two controllers, one of which
  has gone away.

Whether a send to a controller succeeds is an oracle, `sendOk(k, id)`: "the send of the
k-th frame to controller `id` succeeds".

Three consequences of the code deserve notice:

- A short or empty handshake is not rejected. `recv(10)` may return fewer than ten
  bytes. Whatever it returns is decoded and stripped. The empty token and any text
  other than `"CAMERA"` select the controller handler.
- The id field is never truncated. `ljust(32)` only pads, so an id longer than 32 bytes
  is sent whole and the message is longer than the fixed layout.
- A zero-length frame is not broadcast. `receive_frame_data` returns `b''`, which is
  falsy, so `if not frame_data: break` ends the camera loop.

## Model

| member | source | states |
|---|---|---|
| Bytes.Be32 | server_render.py:40 | `struct.pack('>I', n)`: the four bytes of `n`, most significant first |
| Bytes.Be32Value | server_render.py:84 | `struct.unpack('>I', b)[0]`: the number below 2^32 that four bytes spell, most significant first |
| Bytes.Be32ValueOfBe32 | server_render.py:84 | unpacking `>I` gives back the packed number |
| Bytes.Be32OfBe32Value | server_render.py:84 | any four bytes are the packing of the number they unpack to |
| Bytes.Be32Injective | server_render.py:40 | different lengths are packed to different headers |
| Bytes.LJust | server_render.py:43 | `ljust(width)` keeps the bytes and appends spaces up to `width`; its length is the larger of the two, so it never truncates |
| Bytes.TrimPadding | server_render.py:43 | dropping trailing spaces leaves a prefix whose last byte is not a space, and removes only spaces |
| Bytes.TrimPaddingOfLJust | server_render.py:43 | removing the padding `ljust` added gives the original bytes back when they do not end in a space |
| Bytes.TrimPaddingUnique | server_render.py:43 | a space-padded byte string has only one unpadded form |
| Utf8.Encode | server_render.py:43 | `str.encode('utf-8')`: the characters' UTF-8 forms concatenated, at least one byte per character |
| Utf8.DecodeFirst | server_render.py:112 | the character a well-formed UTF-8 sequence at the head encodes, with its length of one to four bytes; `None` for any ill-formed head |
| Utf8.Decode | server_render.py:112 | strict `bytes.decode('utf-8')`: the text, with no more characters than bytes, or `None` where Python raises |
| Utf8.EncodeChar | server_render.py:43 | a character encodes to one to four bytes, and to one byte exactly when it is ASCII |
| Utf8.DecodeFirstOfEncodeChar | server_render.py:112 | the decoder reads a character's encoding back as that character, consuming exactly its bytes |
| Utf8.EncodeCharOfDecodeFirst | server_render.py:112 | every sequence the decoder accepts is the encoding of the character it returns |
| Utf8.DecodeEncode | server_render.py:112 | decoding the UTF-8 encoding of any text gives the text |
| Utf8.EncodeDecode | server_render.py:112 | whatever the strict decoder accepts is the encoding of what it returns |
| Utf8.DecodableIff | server_render.py:112 | a byte string decodes exactly when it is the encoding of some text |
| Utf8.EncodeAppend | server_render.py:43 | encoding distributes over concatenation |
| Utf8.EncodeAscii | server_render.py:43 | ASCII text encodes to one byte per character, each byte the character's code |
| Text.LeadingSpaces | server_render.py:112 | the count of leading whitespace: all counted characters are whitespace, the next is not |
| Text.TrailingSpaces | server_render.py:112 | the count of trailing whitespace: all counted characters are whitespace, the one before is not |
| Text.LeadingSpacesUnique | server_render.py:112 | the leading whitespace run is fixed by the position of the first non-space |
| Text.TrailingSpacesUnique | server_render.py:112 | the trailing whitespace run is fixed by the position of the last non-space |
| Text.TrimStart | server_render.py:112 | `lstrip()`: the suffix left after the leading whitespace, which starts with a non-space or is empty |
| Text.TrimEnd | server_render.py:112 | `rstrip()`: the prefix left before the trailing whitespace, which ends with a non-space or is empty |
| Text.Strip | server_render.py:112 | `strip()`: no longer than the text and with no whitespace at either end |
| Text.TrimStartParts | server_render.py:112 | `lstrip` removes a whitespace prefix and leaves no whitespace at the start |
| Text.TrimEndParts | server_render.py:112 | `rstrip` removes a whitespace suffix and leaves no whitespace at the end |
| Text.StripParts | server_render.py:112 | `strip()` is the text with a whitespace prefix and suffix removed, and has no whitespace at either end |
| Text.StripPadded | server_render.py:112 | stripping a text padded with any whitespace gives the text back when its own ends are not whitespace |
| Text.StripIdempotent | server_render.py:112 | stripping twice is stripping once |
| Text.Decimal | server_render.py:26 | `str(n)` is a non-empty string of decimal digits with no leading zero |
| Text.DigitsValueOfDecimal | server_render.py:26 | reading the digits of `str(n)` back gives `n` |
| Text.DecimalLength | server_render.py:26 | a number below 10^k has at most k digits |
| Wire.Recv | server_render.py:90 | `recv(n)` returns at most `n` bytes in stream order, keeps the rest for later calls, and consumes input whenever `n > 0` and the inbox is not exhausted |
| Wire.StreamAppend | server_render.py:90 | the byte stream of inboxes that deliver only data extends across concatenation |
| Framing.Frame | server_render.py:40-41 | a frame on the wire: the packed length and then the payload |
| Framing.ReadPayload | server_render.py:88-93 | on success the payload has exactly the announced size, extends what was accumulated, and is the next bytes of the stream |
| Framing.ReadFrame | server_render.py:76-98 | a returned payload's length is the big-endian value of the first four stream bytes, and the stream starts with header and payload |
| Framing.PayloadRequests | server_render.py:88-92 | the sizes the payload loop asks `recv` for, each `min(4096, frame_size - len(frame_data))`, so positive and at most 4096; none once the payload is complete |
| Framing.ReceiveFrame | server_render.py:76-98 | the source's loop gives what `ReadFrame` specifies; its `recv` sizes are those of `PayloadRequests` after a whole header and none otherwise, each positive and at most 4096 |
| Framing.ShortHeaderEndsStream | server_render.py:80-82 | a first read of fewer than four bytes yields no frame, whatever follows |
| Framing.ClosedConnectionEndsStream | server_render.py:80-82 | a closed peer or a raising `recv` yields no frame |
| Framing.IncompleteFrameEndsStream | server_render.py:88-92 | a stream that ends before the announced payload is complete yields no frame |
| Framing.RecvDelivered | server_render.py:90 | on data-carrying segments, `recv(n)` returns a non-empty prefix of at most `n` bytes |
| Framing.PayloadRoundTrip | server_render.py:88-95 | the payload loop reads exactly the announced bytes, however they are split into segments |
| Framing.FrameRoundTrip | server_render.py:80-95 | `BE32(len(p)) ++ p`, with the header in one read and the payload in any chunking, decodes to `p` and leaves the rest of the inbox |
| Framing.ZeroLengthFrame | server_render.py:84-95 | a declared length of 0 yields the empty payload and leaves everything after the header unread |
| Framing.EmptyChunkEndsPayload | server_render.py:90-92 | an empty read before the payload is complete ends the frame with `None`, whatever follows |
| Handshake.Classify | server_render.py:112-123 | the role for the handshake read: close on a raising read or bytes that are not UTF-8, camera when the stripped text is `CAMERA`, controller otherwise |
| Handshake.ReadHandshake | server_render.py:111-112 | a connection that is dispatched had at most 10 bytes taken from the front of its stream |
| Handshake.CameraIff | server_render.py:111-118 | the camera role is chosen exactly when the read is `CAMERA` with whitespace on either side, as UTF-8 |
| Handshake.CameraIfPadded | server_render.py:112-114 | the marker with any whitespace padding selects the camera role |
| Handshake.CameraOnlyIfPadded | server_render.py:112-114 | the camera role is only chosen for the padded marker |
| Handshake.ControllerIff | server_render.py:112-123 | the controller role is chosen exactly for text whose stripped form is not `CAMERA` |
| Handshake.ControllerText | server_render.py:112-123 | a handshake choosing the controller role is the encoding of a text that does not strip to `CAMERA` |
| Handshake.ClassifyText | server_render.py:112-123 | the role for any text depends only on its stripped form |
| Handshake.CloseIff | server_render.py:110-130 | the connection is closed exactly when the read raises or the bytes are not UTF-8 |
| Handshake.PaddedMarkerIsCamera | server_render.py:112-114 | `CAMERA` padded to ten bytes with spaces selects the camera role |
| Handshake.EmptyTokenIsController | server_render.py:112-123 | an empty read selects the controller role and does not close |
| Handshake.LowerCaseIsController | server_render.py:114 | `camera` in lower case, however padded, selects the controller role |
| Handshake.UndecodableCloses | server_render.py:128-130 | a read starting with a byte no UTF-8 sequence starts with, and a raising read, close the connection |
| Handshake.SplitCharacterCloses | server_render.py:111-112 | `recv(10)` cutting a two-byte character in half makes the token undecodable and closes the connection |
| Handshake.DecodeAt | server_render.py:112 | an ASCII prefix followed by a lone lead byte does not decode |
| Message.PeerId | server_render.py:26 | the `"ip:port"` id: the dotted-decimal host, a colon and the decimal port |
| Message.IdField | server_render.py:43 | the id field: the UTF-8 id, padded with spaces to 32 bytes and never cut |
| Message.BroadcastMessage | server_render.py:40-43 | the bytes sent to a controller for one frame: the frame on the wire then the id field, at least 36 bytes more than the frame |
| Message.MessageLayout | server_render.py:40-43 | a controller reading the fixed layout gets the frame and 32 id bytes; bytes are left over exactly when the id is longer than 32 bytes |
| Message.LongIdNotTruncated | server_render.py:43 | an id of 32 bytes or more is sent unchanged |
| Message.PeerIdShort | server_render.py:26 | an IPv4 peer's `"ip:port"` is ASCII and at most 21 bytes |
| Message.PeerIdFieldRoundTrip | server_render.py:26-43 | for an IPv4 camera the id field is exactly 32 bytes, and unpadding and decoding it gives the id |
| Hub.CameraFrames | server_render.py:31-35 | the frames the camera loop broadcasts are all non-empty and shorter than 2^32 |
| Hub.CameraFramesInOrder | server_render.py:31-35 | the broadcast frames, written back to back, are a prefix of the camera's byte stream |
| Hub.FrameIsBroadcast | server_render.py:31-41 | a complete non-empty frame is broadcast and the loop goes on with what follows |
| Hub.EmptyFrameStopsStream | server_render.py:33-35 | a frame of declared length 0 ends the camera loop with nothing broadcast |
| Hub.SurvivorsExactly | server_render.py:38-46 | a controller survives `k` fan-outs exactly when all `k` of its sends succeeded, and keeps its connection |
| Hub.Deliveries | server_render.py:38-46 | one log entry per frame |
| Hub.DeliveriesExactly | server_render.py:38-46 | a controller receives frame `k` exactly when it was registered and its sends of frames 0 to `k` succeeded, and it receives that frame's message |
| Hub.VideoHub.constructor | server_render.py:17-18 | both registries start empty |
| Hub.VideoHub.RegisterCamera | server_render.py:28 | inserts or replaces the camera entry, leaving the controllers alone |
| Hub.VideoHub.UnregisterCamera | server_render.py:51-52 | removes the camera entry if present and otherwise changes nothing |
| Hub.VideoHub.RegisterController | server_render.py:60 | inserts or replaces the controller entry, leaving the cameras alone |
| Hub.VideoHub.UnregisterController | server_render.py:71-72 | removes the controller entry if present, so one already pruned by a fan-out is left alone |
| Hub.VideoHub.Broadcast | server_render.py:38-46 | exactly the snapshot's controllers whose send fails are deleted; each of the others receives the frame's message; cameras are untouched |
| Hub.VideoHub.RelayFrames | server_render.py:30-46 | relays exactly the camera's frames, in order; the controllers left and the per-frame deliveries are those the fan-outs specify |
| Hub.VideoHub.HandleCamera | server_render.py:24-53 | the camera is registered for its stream and unregistered at the end; frames, survivors and deliveries are as `RelayFrames` states |
| Hub.VideoHub.Accept | server_render.py:104-130 | the handshake's role decides: closing touches no registry, a controller is registered, a camera is handled |
| Scenarios.CameraSession | server_render.py:111-114 | a ten-byte camera handshake followed by one non-empty frame broadcasts exactly that frame |
| Scenarios.OneOfTwoGone | server_render.py:38-46 | of two controllers, the one whose send fails is pruned, and only the other receives the message |
| Scenarios.TwoControllersOneGone | server_render.py:38-46 | `k1` receives `00 00 00 05`, `hello` and the 32-byte id; `k2` receives nothing and is removed; the camera is unregistered |

## Left out

- Sockets: creating, binding, listening and accepting, `setsockopt`, and the `PORT`
  environment variable. These are I/O and configuration. The received bytes are an
  `Inbox` parameter, and the peer address is a `PeerAddress` parameter.
- Threads. The model runs one operation at a time, so it does not capture the races on
  the shared dictionaries. One such race is a `del self.controllers[...]` raising
  `KeyError` after the controller's own handler has removed the entry. That would end
  the camera loop. In the sequential model the entry is always present.
- The controller heartbeat: `time.sleep(1)` and the `PING` writes. This is timing and
  I/O. The model keeps its effect on the registry: registration, and
  `UnregisterController` when a write fails.
- `HandleCamera` does not return early when `self.running` is false, because nothing
  ever clears that flag.
- Partial writes. A controller's three `sendall` calls succeed or fail as a unit, so a
  controller that received only part of a message before its send failed is not
  modelled.
- Closing connections (`conn.close()`). Connections are opaque values of type `Sock`.
- Logging (`print`), `KeyboardInterrupt` handling, and the unused `cv2` and `numpy`
  imports.
- The order of iterating the snapshot. `Broadcast` visits the controllers in an
  arbitrary order. The order does not affect the outcome the model states.
- Nothing beyond IPv4 is needed. The listening socket is `AF_INET`, so every peer is an
  IPv4 address and a port, which `PeerAddress` models.
