/** Length-prefixed frames over a byte stream that delivers arbitrary positive chunks. */
module IpcFraming {
  import opened Bytes
  import opened WireFormat

  /** One message: IpcMsg. */
  datatype Frame = Frame(kind: u32, corr: u64, payload: bytes)

  /** [u32 body length][u32 type][u64 corr_id][payload]. */
  function FrameBytes(f: Frame): (b: bytes)
    requires 12 + |f.payload| < TWO_32
    ensures |b| == 16 + |f.payload|
  {
    U32(12 + |f.payload|) + (U32(f.kind) + (U64(f.corr) + f.payload))
  }

  /** The frame has fewer than 2^32 bytes. */
  predicate Deliverable(f: Frame) {
    16 + |f.payload| < TWO_32
  }

  /** The four fields, written one behind the other. */
  lemma FrameAssembled(f: Frame)
    requires 12 + |f.payload| < TWO_32
    ensures [] + Le(12 + |f.payload|, 4) + Le(f.kind, 4) + Le(f.corr, 8) + f.payload == FrameBytes(f)
  {
    hide Le;
  }

  /** An instance: a frame of type 1 and id 2 with one byte of payload, as it is on the wire. */
  lemma FrameOnTheWire(b: byte)
    ensures FrameBytes(Frame(1, 2, [b])) == [13, 0, 0, 0, 1, 0, 0, 0, 2, 0, 0, 0, 0, 0, 0, 0, b]
  {
    SmallNumber(13);
    SmallNumber(1);
    SmallNumber(2);
  }

  datatype Reception = Lost | Got(frame: Frame)

  /** What one receive makes of the bytes still to come, and the bytes it leaves. */
  function Receive(s: bytes): (r: (Reception, bytes))
    ensures r.0.Got? ==> |r.1| < |s|
  {
    if |s| < 4 then (Lost, [])
    else
      var n := U32At(s, 0);
      if n < 12 then (Lost, s[4..])
      else if |s| < 4 + n then (Lost, [])
      else (Got(Frame(U32At(s, 4), U64At(s, 8), s[16..4 + n])), s[4 + n..])
  }

  /** Every message received until the stream ends or a length is bad. */
  function ReceiveAll(s: bytes): seq<Frame>
    decreases |s|
  {
    var (r, rest) := Receive(s);
    if r.Lost? then [] else [r.frame] + ReceiveAll(rest)
  }

  predicate Sendable(frames: seq<Frame>) {
    forall i | 0 <= i < |frames| :: 12 + |frames[i].payload| < TWO_32
  }

  function Stream(frames: seq<Frame>): bytes
    requires Sendable(frames)
  {
    if frames == [] then [] else FrameBytes(frames[0]) + Stream(frames[1..])
  }

  /** One frame, whatever follows it in the stream. */
  lemma FrameIsReceived(f: Frame, rest: bytes)
    requires 12 + |f.payload| < TWO_32
    ensures Receive(FrameBytes(f) + rest) == (Got(f), rest)
  {
    hide U32At, U64At, U32, U64;
    var s := FrameBytes(f) + rest;
    assert At(s, 0, FrameBytes(f)) by { assert s[0..|FrameBytes(f)|] == FrameBytes(f); }
    AtSplit(s, 0, U32(12 + |f.payload|), U32(f.kind) + (U64(f.corr) + f.payload));
    AtSplit(s, 4, U32(f.kind), U64(f.corr) + f.payload);
    AtSplit(s, 8, U64(f.corr), f.payload);
    U32IsRead(s, 0, 12 + |f.payload|);
    U32IsRead(s, 4, f.kind);
    U64IsRead(s, 8, f.corr);
    AtSlice(s, 16, f.payload);
    assert s[|FrameBytes(f)|..] == rest;
  }

  /** Any sequence of frames is received as exactly that sequence. */
  lemma {:induction false} StreamIsReceived(frames: seq<Frame>)
    requires Sendable(frames)
    ensures ReceiveAll(Stream(frames)) == frames
  {
    hide Receive, FrameBytes;
    if frames == [] {
      assert Receive([]).0.Lost? by { NothingToReceive(); }
    } else {
      FrameIsReceived(frames[0], Stream(frames[1..]));
      StreamIsReceived(frames[1..]);
    }
  }

  /** The beginning of a frame is no frame. */
  lemma CutFrameIsLost(f: Frame, part: bytes)
    requires 12 + |f.payload| < TWO_32 && part < FrameBytes(f)
    ensures Receive(part).0.Lost?
  {
    hide U32At, U64At, U32, U64;
    var s := FrameBytes(f);
    if |part| >= 4 {
      AtWhole(s);
      AtSplit(s, 0, U32(12 + |f.payload|), U32(f.kind) + (U64(f.corr) + f.payload));
      assert part[0..4] == s[0..4];
      assert At(part, 0, U32(12 + |f.payload|));
      U32IsRead(part, 0, 12 + |f.payload|);
    }
  }

  /** A stream that ends within a frame: the frames before it are received, and nothing else. */
  lemma {:induction false} CutStreamIsReceived(frames: seq<Frame>, f: Frame, part: bytes)
    requires Sendable(frames) && 12 + |f.payload| < TWO_32 && part < FrameBytes(f)
    ensures ReceiveAll(Stream(frames) + part) == frames
  {
    hide Receive, FrameBytes;
    if frames == [] {
      assert Stream(frames) + part == part;
      CutFrameIsLost(f, part);
    } else {
      Assoc(FrameBytes(frames[0]), Stream(frames[1..]), part);
      FrameIsReceived(frames[0], Stream(frames[1..]) + part);
      CutStreamIsReceived(frames[1..], f, part);
    }
  }

  lemma {:induction false} StreamAppend(frames: seq<Frame>, i: nat)
    requires Sendable(frames) && i < |frames|
    ensures Stream(frames[..i + 1]) == Stream(frames[..i]) + FrameBytes(frames[i])
  {
    hide FrameBytes;
    if i == 0 {
      assert frames[..1] == [frames[0]] && frames[..0] == [] && [frames[0]][1..] == [];
      assert FrameBytes(frames[0]) + [] == [] + FrameBytes(frames[0]);
    } else {
      assert frames[..i + 1][1..] == frames[1..][..i] && frames[..i][1..] == frames[1..][..i - 1];
      StreamAppend(frames[1..], i - 1);
      Assoc(FrameBytes(frames[0]), Stream(frames[1..][..i - 1]), FrameBytes(frames[i]));
    }
  }

  lemma NothingToReceive()
    ensures Receive([]).0.Lost?
  {
  }

  /** The pieces of a body are the pieces of the stream it was read from. */
  lemma BodyParts(s: bytes, body: bytes)
    requires 12 <= |body| && 4 + |body| <= |s| && body == s[4..][..|body|]
    ensures U32At(body, 0) == U32At(s, 4) && U64At(body, 4) == U64At(s, 8)
    ensures body[12..] == s[16..4 + |body|] && s[4..][|body|..] == s[4 + |body|..]
  {
    assert forall k | 0 <= k < |body| :: body[k] == s[4 + k];
    assert body[0..4] == s[4..8];
    assert body[4..12] == s[8..16];
  }

  // --- The socket ----------------------------------------------------------------------

  /** The most one send or recv transfers (MAX_RW_COUNT). */
  const MAX_TRANSFER: nat := 0x7FFF_F000

  /** The count `(int)len` hands to the system call, which takes it back to a size_t. */
  function AsCount(len: nat): (n: nat)
    ensures n == 0 <==> len % TWO_32 == 0
    ensures 0 < len < TWO_32 ==> 0 < n && (n <= len || n > MAX_TRANSFER)
  {
    var low := len % TWO_32;
    if low <= INT_MAX then low else TWO_64 - (TWO_32 - low)
  }

  /** A payload of 2^32 - 16 bytes makes a frame of 2^32, and send is asked for no byte at all of it. */
  lemma FullFrameIsStuck(kind: u32, corr: u64)
    ensures exists f: Frame ::
      && f.kind == kind && f.corr == corr && 12 + |f.payload| < TWO_32
      && |FrameBytes(f)| == TWO_32 && AsCount(|FrameBytes(f)|) == 0 && !Deliverable(f)
  {
    var f := Frame(kind, corr, seq(TWO_32 - 16, _ => 0));
    assert |FrameBytes(f)| == TWO_32;
  }

  class Socket {
    /** What the peer sends in all, as far as it has not been received. */
    var incoming: bytes
    var outgoing: bytes
    /** A broken connection refuses to send; it can break at any time. */
    var broken: bool

    /**
      * send(2): takes any positive number of bytes, but none when asked for none, and none when the
      * connection is broken or breaks.
      */
    method Send(buf: array<byte>, p: nat, count: nat) returns (n: int)
      requires p <= buf.Length && (if count < MAX_TRANSFER then count else MAX_TRANSFER) <= buf.Length - p
      modifies this`outgoing, this`broken
      ensures n > 0 <==> count > 0 && !broken
      ensures broken == old(broken) || (broken && n <= 0)
      ensures n > 0 ==> n <= count && n <= MAX_TRANSFER && p + n <= buf.Length
      ensures n > 0 ==> outgoing == old(outgoing) + buf[p..p + n]
      ensures n <= 0 ==> outgoing == old(outgoing)
    {
      var most := if count < MAX_TRANSFER then count else MAX_TRANSFER;
      if most == 0 {
        return 0;
      }
      if * {
        broken := true;
      }
      if broken {
        return -1;
      }
      n :| 1 <= n <= most;
      outgoing := outgoing + buf[p..p + n];
    }

    /** recv(2) on a blocking socket: any positive number of bytes, and 0 once the stream has ended. */
    method Recv(buf: array<byte>, p: nat, count: nat) returns (n: int)
      requires p <= buf.Length && (if count < MAX_TRANSFER then count else MAX_TRANSFER) <= buf.Length - p
      modifies this`incoming, buf
      ensures n > 0 <==> count > 0 && old(incoming) != []
      ensures n > 0 ==> n <= |old(incoming)| && n <= count && p + n <= buf.Length
      ensures n > 0 ==> buf[..p + n] == old(buf[..p]) + old(incoming[..n]) && incoming == old(incoming[n..])
      ensures n <= 0 ==> incoming == old(incoming) && buf[..] == old(buf[..])
    {
      var most := if count < MAX_TRANSFER then count else MAX_TRANSFER;
      if incoming == [] || most == 0 {
        return 0;
      }
      n :| 1 <= n <= most && n <= |incoming|;
      var q := PutBytes(buf, p, incoming[..n]);
      incoming := incoming[n..];
    }

    /**
      * net_send_all. It delivers the whole buffer unless the connection breaks or the buffer has 2^32
      * bytes or more: the remaining length then gets to 2^32, which `(int)len` turns into 0. Otherwise it
      * delivers a proper prefix.
      */
    method SendAll(buf: array<byte>) returns (r: int)
      requires buf.Length < 2 * TWO_32
      modifies this`outgoing, this`broken
      ensures r == 0 || r == -1
      ensures r == 0 ==> outgoing == old(outgoing) + buf[..]
      ensures r == -1 ==> old(outgoing) <= outgoing < old(outgoing) + buf[..]
      ensures r == 0 <==> buf.Length == 0 || (!broken && buf.Length < TWO_32)
    {
      var p, len := 0, buf.Length;
      while len > 0
        invariant p >= 0 && len >= 0 && p + len == buf.Length
        invariant outgoing == old(outgoing) + buf[..p]
        invariant buf.Length >= TWO_32 ==> len >= TWO_32
        invariant broken ==> old(broken) && p == 0
      {
        var n := Send(buf, p, AsCount(len));
        if n <= 0 {
          return -1;
        }
        assert buf[..p] + buf[p..p + n] == buf[..p + n];
        p := p + n;
        len := len - n;
      }
      assert buf[..p] == buf[..];
      return 0;
    }

    /** net_recv_all: fills the buffer, or drains a stream that ends too early. */
    method RecvAll(buf: array<byte>) returns (r: int)
      requires buf.Length < TWO_32
      modifies this`incoming, buf
      ensures r == 0 || r == -1
      ensures r == 0 <==> buf.Length <= |old(incoming)|
      ensures r == 0 ==> buf[..] == old(incoming)[..buf.Length] && incoming == old(incoming)[buf.Length..]
      ensures r == -1 ==> incoming == []
    {
      var p, len := 0, buf.Length;
      ghost var all := incoming;
      while len > 0
        invariant p >= 0 && len >= 0 && p + len == buf.Length
        invariant p <= |all| && incoming == all[p..] && buf[..p] == all[..p]
      {
        var n := Recv(buf, p, AsCount(len));
        if n <= 0 {
          return -1;
        }
        assert all[..p] + all[p..][..n] == all[..p + n];
        p := p + n;
        len := len - n;
      }
      assert buf[..p] == buf[..];
      return 0;
    }

    /**
      * ipc_send. The frame is on its way exactly when the connection still stands and the frame has fewer
      * than 2^32 bytes; otherwise a proper prefix of it is.
      */
    method IpcSend(f: Frame) returns (r: int)
      requires 12 + |f.payload| < TWO_32
      modifies this`outgoing, this`broken
      ensures r == 0 || r == -1
      ensures r == 0 <==> !broken && Deliverable(f)
      ensures r == 0 ==> outgoing == old(outgoing) + FrameBytes(f)
      ensures r == -1 ==> old(outgoing) <= outgoing < old(outgoing) + FrameBytes(f)
    {
      hide Le, FrameBytes;
      var bodyLen := 12 + |f.payload|;
      var frame := new byte[4 + bodyLen];
      var p := PutNumber(frame, 0, bodyLen, 4);
      p := PutNumber(frame, p, f.kind, 4);
      p := PutNumber(frame, p, f.corr, 8);
      p := PutBytes(frame, p, f.payload);
      assert frame[..] == frame[..p];
      FrameAssembled(f);
      r := SendAll(frame);
    }

    /** ipc_recv, with `ready` the answer of the poll. None: no message yet. */
    method IpcRecv(ready: bool) returns (msg: Option<Reception>)
      modifies this`incoming
      ensures !ready ==> msg == None && incoming == old(incoming)
      ensures ready ==> (msg, incoming) == (Some(Receive(old(incoming)).0), Receive(old(incoming)).1)
    {
      if !ready {
        return None;
      }
      var head := new byte[4];
      var r := RecvAll(head);
      if r != 0 {
        return Some(Lost);
      }
      ghost var s := old(incoming);
      assert head[..][0..4] == s[0..4];
      var bodyLen := U32At(head[..], 0);
      if bodyLen < 12 {
        return Some(Lost);
      }
      var buf := new byte[bodyLen];
      r := RecvAll(buf);
      if r != 0 {
        return Some(Lost);
      }
      BodyParts(s, buf[..]);
      msg := Some(Got(Frame(U32At(buf[..], 0), U64At(buf[..], 4), buf[12..])));
    }

    /** Messages sent one after the other, until one does not get through. */
    method SendFrames(frames: seq<Frame>) returns (r: int, sent: nat)
      requires Sendable(frames)
      modifies this`outgoing, this`broken
      ensures sent <= |frames| && (r == 0 <==> sent == |frames|)
      ensures r == 0 ==> outgoing == old(outgoing) + Stream(frames)
      ensures r != 0 ==> old(outgoing) + Stream(frames[..sent]) <= outgoing
                         < old(outgoing) + Stream(frames[..sent]) + FrameBytes(frames[sent])
      ensures !broken && (forall f | f in frames :: Deliverable(f)) ==> r == 0
    {
      hide Stream, FrameBytes;
      assert Stream(frames[..0]) == [] by { NothingSent(frames[..0]); }
      for i := 0 to |frames|
        invariant outgoing == old(outgoing) + Stream(frames[..i])
      {
        r := IpcSend(frames[i]);
        if r != 0 {
          return r, i;
        }
        StreamAppend(frames, i);
        Assoc(old(outgoing), Stream(frames[..i]), FrameBytes(frames[i]));
      }
      assert frames[..|frames|] == frames;
      return 0, |frames|;
    }

    /** The loop of the backend's main; polls that find nothing ready change nothing. */
    method ReceiveLoop() returns (frames: seq<Frame>)
      modifies this`incoming
      ensures frames == ReceiveAll(old(incoming))
    {
      hide Receive;
      frames := [];
      while true
        invariant frames + ReceiveAll(incoming) == ReceiveAll(old(incoming))
        decreases |incoming|
      {
        ghost var before := incoming;
        var msg := IpcRecv(true);
        if msg.value.Lost? {
          assert frames + [] == frames;
          return;
        }
        Assoc(frames, [msg.value.frame], ReceiveAll(incoming));
        frames := frames + [msg.value.frame];
      }
    }
  }

  lemma NothingSent(frames: seq<Frame>)
    requires frames == []
    ensures Stream(frames) == []
  {
  }

  /**
    * From socket to socket, whatever chunks are taken and delivered and whenever the connection breaks: the
    * receiver gets exactly the frames that were sent whole, in order.
    */
  method Deliver(from: Socket, to: Socket, frames: seq<Frame>) returns (r: int, received: seq<Frame>)
    requires Sendable(frames) && from.outgoing == []
    modifies from`outgoing, from`broken, to`incoming
    ensures received <= frames && (r == 0 <==> received == frames)
    ensures !from.broken && (forall f | f in frames :: Deliverable(f)) ==> r == 0
  {
    hide Stream, FrameBytes, ReceiveAll;
    var sent;
    r, sent := from.SendFrames(frames);
    to.incoming := from.outgoing;
    assert [] + Stream(frames) == Stream(frames) && [] + Stream(frames[..sent]) == Stream(frames[..sent]);
    if r == 0 {
      StreamIsReceived(frames);
    } else {
      var whole := Stream(frames[..sent]);
      var part := from.outgoing[|whole|..];
      assert from.outgoing == whole + part && part < FrameBytes(frames[sent]);
      CutStreamIsReceived(frames[..sent], frames[sent], part);
    }
    received := to.ReceiveLoop();
  }
}
