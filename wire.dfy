/**
  The receiving side of a TCP socket, as the hub's `conn.recv(n)` calls see it.

  What the peer sends is a sequence of segments. `recv(n)` hands over at most `n`
  bytes of the segment at the head and keeps the rest of it for the next call, so a
  call may return fewer bytes than asked for. A segment with no bytes, or the end of
  the sequence, is the peer having closed the connection: `recv` returns `b''`.
  A `Reset` is a call that raises (connection reset, timeout, ...).
 */
module Wire {
  import opened Bytes

  datatype Segment = Data(bytes: seq<byte>) | Reset

  type Inbox = seq<Segment>

  /** The result of one `conn.recv(n)` call. */
  datatype RecvResult = Got(bytes: seq<byte>) | Raised

  /** The bytes the peer delivers in order, up to the first reset. */
  function Stream(inbox: Inbox): seq<byte> {
    if inbox == [] then []
    else match inbox[0]
      case Reset => []
      case Data(c) => c + Stream(inbox[1..])
  }

  /** A size that every `recv` call but one on an exhausted inbox makes smaller. */
  function Weight(inbox: Inbox): nat {
    if inbox == [] then 0
    else match inbox[0]
      case Reset => 1 + Weight(inbox[1..])
      case Data(c) => |c| + 1 + Weight(inbox[1..])
  }

  /** `conn.recv(n)`: the result and what is left to read afterwards. */
  function Recv(inbox: Inbox, n: nat): (r: (RecvResult, Inbox))
    ensures r.0.Got? ==> |r.0.bytes| <= n
    ensures r.0.Got? ==> Stream(inbox) == r.0.bytes + Stream(r.1)
    ensures Weight(r.1) + (if r.0.Got? then |r.0.bytes| else 0) <= Weight(inbox)
    ensures n > 0 && inbox != [] ==> Weight(r.1) < Weight(inbox)
  {
    if inbox == [] then (Got([]), [])
    else match inbox[0]
      case Reset => (Raised, inbox[1..])
      case Data(c) =>
        if |c| <= n then (Got(c), inbox[1..])
        else
          var rest := [Data(c[n..])] + inbox[1..];
          assert rest[1..] == inbox[1..];
          assert c == c[..n] + c[n..];
          (Got(c[..n]), rest)
  }

  /** Every segment carries bytes: nothing in `segs` closes or resets the connection. */
  predicate Delivers(segs: Inbox) {
    forall i | 0 <= i < |segs| :: segs[i].Data? && segs[i].bytes != []
  }

  /** What a closing-free inbox delivers is followed by what comes after it. */
  lemma {:induction false} StreamAppend(segs: Inbox, tail: Inbox)
    requires Delivers(segs)
    ensures Stream(segs + tail) == Stream(segs) + Stream(tail)
  {
    if segs != [] {
      assert (segs + tail)[1..] == segs[1..] + tail;
      StreamAppend(segs[1..], tail);
    } else {
      assert segs + tail == tail;
    }
  }
}
