/** The encoders and decoders as they run: through a position that advances over a buffer. */
module IpcCodec {
  import opened Bytes
  import opened WireFormat
  import opened IpcPayloads

  // --- Encoders: the size is computed first, and the writes fill it exactly ----------------

  method PutPrefixed(buf: array<byte>, p: nat, s: bytes) returns (q: nat)
    requires |s| < TWO_32 && p + 4 + |s| <= buf.Length
    modifies buf
    ensures q == p + 4 + |s| && buf[..q] == old(buf[..p]) + Prefixed(s)
  {
    q := PutNumber(buf, p, |s|, 4);
    q := PutBytes(buf, q, s);
    assert old(buf[..p]) + U32(|s|) + s == old(buf[..p]) + (U32(|s|) + s);
  }

  lemma {:induction false} TurnsBytesAppend(turns: seq<Turn>, t: Turn)
    requires TurnsFit(turns + [t])
    ensures TurnsFit(turns) && |t.text| < TWO_32
    ensures TurnsBytes(turns + [t]) == TurnsBytes(turns) + TurnBytes(t)
  {
    hide TurnBytes;
    assert (turns + [t])[|turns|] == t;
    assert forall i | 0 <= i < |turns| :: turns[i] == (turns + [t])[i];
    if turns == [] {
      assert (turns + [t])[1..] == [];
    } else {
      assert (turns + [t])[1..] == turns[1..] + [t];
      TurnsBytesAppend(turns[1..], t);
      Assoc(TurnBytes(turns[0]), TurnsBytes(turns[1..]), TurnBytes(t));
    }
  }

  lemma TurnsBytesPrefix(turns: seq<Turn>, i: nat)
    requires TurnsFit(turns) && i < |turns|
    ensures TurnsBytes(turns[..i + 1]) == TurnsBytes(turns[..i]) + TurnBytes(turns[i])
    ensures |TurnsBytes(turns[..i + 1])| <= |TurnsBytes(turns)|
  {
    assert turns[..i + 1] == turns[..i] + [turns[i]];
    TurnsBytesAppend(turns[..i], turns[i]);
    TurnsBytesLength(turns, i + 1);
  }

  lemma {:induction false} TurnsBytesLength(turns: seq<Turn>, i: nat)
    requires TurnsFit(turns) && i <= |turns|
    ensures |TurnsBytes(turns[..i])| <= |TurnsBytes(turns)|
  {
    if i > 0 {
      assert turns[..i][0] == turns[0] && turns[..i][1..] == turns[1..][..i - 1];
      TurnsBytesLength(turns[1..], i - 1);
    }
  }

  method EncodeReqSend(session: u32, turns: seq<Turn>, model: Option<bytes>, provider: Option<bytes>)
    returns (buf: array<byte>)
    requires Fits(ReqSend(session, turns, model, provider))
    requires |Wire(ReqSend(session, turns, model, provider))| < TWO_32
    ensures fresh(buf) && buf[..] == Wire(ReqSend(session, turns, model, provider))
  {
    hide Prefixed, Le;
    var sz := 8;
    for i := 0 to |turns|
      invariant sz == 8 + |TurnsBytes(turns[..i])|
    {
      TurnsBytesPrefix(turns, i);
      sz := sz + 1 + 4 + |turns[i].text|;
    }
    assert turns[..|turns|] == turns;
    sz := sz + 4 + |OrEmpty(model)|;
    sz := sz + 4 + |OrEmpty(provider)|;
    buf := new byte[sz];
    var p := PutNumber(buf, 0, session, 4);
    p := PutNumber(buf, p, |turns|, 4);
    p := PutTurns(buf, p, turns);
    p := PutPrefixed(buf, p, OrEmpty(model));
    p := PutPrefixed(buf, p, OrEmpty(provider));
    assert buf[..] == buf[..p];
    Assoc5(U32(session), U32(|turns|), TurnsBytes(turns), Prefixed(OrEmpty(model)), Prefixed(OrEmpty(provider)));
  }

  lemma Assoc3(a: bytes, b: bytes, c: bytes)
    ensures [] + a + b + c == a + (b + c)
  {
    assert [] + a == a;
    Assoc(a, b, c);
  }

  lemma Assoc5(a: bytes, b: bytes, c: bytes, d: bytes, e: bytes)
    ensures [] + a + b + c + d + e == a + (b + (c + (d + e)))
  {
    Assoc(a, b, c);
    Assoc(a, b + c, d);
    Assoc(b, c, d);
    Assoc(a, b + (c + d), e);
    Assoc(b, c + d, e);
    Assoc(c, d, e);
    assert [] + a == a;
  }

  /** The second loop of ipc_encode_req_send. */
  method PutTurns(buf: array<byte>, start: nat, turns: seq<Turn>) returns (p: nat)
    requires TurnsFit(turns) && start + |TurnsBytes(turns)| <= buf.Length
    modifies buf
    ensures p == start + |TurnsBytes(turns)| && buf[..p] == old(buf[..start]) + TurnsBytes(turns)
  {
    hide TurnBytes;
    p := start;
    for i := 0 to |turns|
      invariant p == start + |TurnsBytes(turns[..i])|
      invariant buf.Length >= p && buf[..p] == old(buf[..start]) + TurnsBytes(turns[..i])
    {
      TurnsBytesPrefix(turns, i);
      p := PutTurn(buf, p, turns[i]);
      Assoc(old(buf[..start]), TurnsBytes(turns[..i]), TurnBytes(turns[i]));
    }
    assert turns[..|turns|] == turns;
  }

  method PutTurn(buf: array<byte>, p: nat, t: Turn) returns (q: nat)
    requires |t.text| < TWO_32 && p + 5 + |t.text| <= buf.Length
    modifies buf
    ensures q == p + 5 + |t.text| && buf[..q] == old(buf[..p]) + TurnBytes(t)
  {
    buf[p] := t.isUser;
    assert buf[..p + 1] == old(buf[..p]) + [t.isUser];
    q := PutPrefixed(buf, p + 1, t.text);
    assert old(buf[..p]) + [t.isUser] + Prefixed(t.text) == old(buf[..p]) + ([t.isUser] + Prefixed(t.text));
  }

  method EncodeRepFinal(session: u32, content: Option<bytes>, reasoning: Option<bytes>) returns (buf: array<byte>)
    requires Fits(RepFinal(session, content, reasoning)) && |Wire(RepFinal(session, content, reasoning))| < TWO_32
    ensures fresh(buf) && buf[..] == Wire(RepFinal(session, content, reasoning))
  {
    hide Prefixed, Le;
    buf := new byte[4 * 3 + |OrEmpty(content)| + |OrEmpty(reasoning)|];
    var p := PutNumber(buf, 0, session, 4);
    p := PutPrefixed(buf, p, OrEmpty(content));
    p := PutPrefixed(buf, p, OrEmpty(reasoning));
    assert buf[..] == buf[..p];
    Assoc3(U32(session), Prefixed(OrEmpty(content)), Prefixed(OrEmpty(reasoning)));
  }

  method EncodeWorkerStart(parent: u64, model: Option<bytes>, description: Option<bytes>) returns (buf: array<byte>)
    requires Fits(WorkerStart(parent, model, description)) && |Wire(WorkerStart(parent, model, description))| < TWO_32
    ensures fresh(buf) && buf[..] == Wire(WorkerStart(parent, model, description))
  {
    hide Prefixed, Le;
    buf := new byte[8 + 4 + |OrEmpty(model)| + 4 + |OrEmpty(description)|];
    var p := PutNumber(buf, 0, parent, 8);
    p := PutPrefixed(buf, p, OrEmpty(model));
    p := PutPrefixed(buf, p, OrEmpty(description));
    assert buf[..] == buf[..p];
    Assoc3(U64(parent), Prefixed(OrEmpty(model)), Prefixed(OrEmpty(description)));
  }

  method EncodeSessionRename(session: u32, topic: Option<bytes>) returns (buf: array<byte>)
    requires Fits(SessionRename(session, topic)) && |Wire(SessionRename(session, topic))| < TWO_32
    ensures fresh(buf) && buf[..] == Wire(SessionRename(session, topic))
  {
    hide Prefixed, Le;
    buf := new byte[4 * 2 + |OrEmpty(topic)|];
    var p := PutNumber(buf, 0, session, 4);
    p := PutPrefixed(buf, p, OrEmpty(topic));
    assert buf[..] == buf[..p];
  }

  method EncodeWorkerReq(workerType: u32, op: Option<bytes>, args: Option<bytes>) returns (buf: array<byte>)
    requires Fits(WorkerReq(workerType, op, args)) && |Wire(WorkerReq(workerType, op, args))| < TWO_32
    ensures fresh(buf) && buf[..] == Wire(WorkerReq(workerType, op, args))
  {
    hide Prefixed, Le;
    buf := new byte[4 * 3 + |OrEmpty(op)| + |OrEmpty(args)|];
    var p := PutNumber(buf, 0, workerType, 4);
    p := PutPrefixed(buf, p, OrEmpty(op));
    p := PutPrefixed(buf, p, OrEmpty(args));
    assert buf[..] == buf[..p];
    Assoc3(U32(workerType), Prefixed(OrEmpty(op)), Prefixed(OrEmpty(args)));
  }

  method EncodeWorkerRep(success: bool, result: Option<bytes>) returns (buf: array<byte>)
    requires Fits(WorkerRep(success, result)) && |Wire(WorkerRep(success, result))| < TWO_32
    ensures fresh(buf) && buf[..] == Wire(WorkerRep(success, result))
  {
    buf := new byte[1 + 4 + |OrEmpty(result)|];
    buf[0] := if success then 1 else 0;
    assert buf[..1] == [if success then 1 else 0];
    var p := PutPrefixed(buf, 1, OrEmpty(result));
    assert buf[..] == buf[..p];
  }

  method EncodeApprovalReq(reqCorr: u64, description: Option<bytes>) returns (buf: array<byte>)
    requires Fits(ApprovalReq(reqCorr, description)) && |Wire(ApprovalReq(reqCorr, description))| < TWO_32
    ensures fresh(buf) && buf[..] == Wire(ApprovalReq(reqCorr, description))
  {
    hide Prefixed, Le;
    buf := new byte[8 + 4 + |OrEmpty(description)|];
    var p := PutNumber(buf, 0, reqCorr, 8);
    p := PutPrefixed(buf, p, OrEmpty(description));
    assert buf[..] == buf[..p];
  }

  method EncodeApprovalRep(reqCorr: u64, approved: bool) returns (buf: array<byte>)
    ensures fresh(buf) && buf[..] == Wire(ApprovalRep(reqCorr, approved))
  {
    buf := new byte[8 + 1];
    var p := PutNumber(buf, 0, reqCorr, 8);
    ghost var head := buf[..8];
    buf[8] := if approved then 1 else 0;
    assert buf[..] == head + [if approved then 1 else 0];
  }

  // --- Decoders: every read is inside the buffer, whatever it holds -------------------------

  ghost function Prepend(turns: seq<Turn>, r: Option<(seq<Turn>, nat)>): Option<(seq<Turn>, nat)> {
    if r.None? then None else Some((turns + r.value.0, r.value.1))
  }

  /** The code for a string that must be whole, the same in four decoders. */
  method ReadString(b: bytes, p: nat) returns (o: Option<bytes>)
    requires p + 4 <= |b|
    ensures o == Mandatory(b, p)
  {
    var len := U32At(b, p);
    if p + 4 + len > |b| {
      return None;
    }
    return Some(b[p + 4..p + 4 + len]);
  }

  lemma StringInside(b: bytes, p: nat)
    requires Mandatory(b, p).Some?
    ensures p + 4 + |Mandatory(b, p).value| <= |b|
  {
  }

  /** The loop of ipc_decode_req_send. */
  method ReadAllTurns(b: bytes, start: nat, count: nat) returns (r: Option<(seq<Turn>, nat)>)
    requires start <= |b|
    ensures r == ReadTurns(b, start, count)
  {
    hide U32At, Mandatory;
    var p, turns := start, [];
    var i := 0;
    PrependNothing(ReadTurns(b, start, count));
    while i < count
      invariant 0 <= i <= count && start <= p <= |b|
      invariant ReadTurns(b, start, count) == Prepend(turns, ReadTurns(b, p, count - i))
    {
      if p + 5 > |b| {
        return None;
      }
      var text := ReadString(b, p + 1);
      if text.None? {
        return None;
      }
      StringInside(b, p + 1);
      var turn := Turn(b[p], text.value);
      PrependAssociates(turns, turn, ReadTurns(b, p + 5 + |text.value|, count - i - 1));
      turns := turns + [turn];
      p := p + 5 + |text.value|;
      i := i + 1;
    }
    assert turns + [] == turns;
    return Some((turns, p));
  }

  /** The code for an optional tail, the same in five decoders: the string, and the position behind it. */
  method ReadTail(b: bytes, p: nat) returns (o: Option<bytes>, q: nat)
    requires p <= |b|
    ensures o == Tail(b, p) && q == AfterTail(b, p) <= |b|
  {
    o, q := None, p;
    if q + 4 <= |b| {
      var len := U32At(b, q);
      q := q + 4;
      if len > 0 && q + len <= |b| {
        o := Some(b[q..q + len]);
        q := q + len;
      }
    }
  }

  method ReadReqSend(b: bytes, nullForZero: bool) returns (r: Option<Payload>)
    ensures r == DecodeReqSend(b, nullForZero)
  {
    hide U32At, Tail, AfterTail, ReadTurns;
    if |b| < 8 {
      return None;
    }
    var session, count := U32At(b, 0), U32At(b, 4);
    if count == 0 && nullForZero {
      return None;
    }
    var turns := ReadAllTurns(b, 8, count);
    if turns.None? {
      return None;
    }
    var p := turns.value.1;
    var model, provider;
    model, p := ReadTail(b, p);
    provider, p := ReadTail(b, p);
    return Some(ReqSend(session, turns.value.0, model, provider));
  }

  lemma PrependNothing(r: Option<(seq<Turn>, nat)>)
    ensures Prepend([], r) == r
  {
    if r.Some? {
      assert [] + r.value.0 == r.value.0;
    }
  }

  lemma PrependAssociates(turns: seq<Turn>, t: Turn, r: Option<(seq<Turn>, nat)>)
    ensures Prepend(turns, Prepend([t], r)) == Prepend(turns + [t], r)
  {
    if r.Some? {
      assert turns + ([t] + r.value.0) == turns + [t] + r.value.0;
    }
  }

  method ReadRepFinal(b: bytes) returns (r: Option<Payload>)
    ensures r == DecodeRepFinal(b)
  {
    hide U32At, Mandatory, Tail, AfterTail;
    if |b| < 12 {
      return None;
    }
    var content := ReadString(b, 4);
    if content.None? {
      return None;
    }
    assert 8 + |content.value| <= |b| by { StringInside(b, 4); }
    var reasoning, p := ReadTail(b, 8 + |content.value|);
    return Some(RepFinal(U32At(b, 0), content, reasoning));
  }

  method ReadWorkerStart(b: bytes) returns (r: Option<Payload>)
    ensures r == DecodeWorkerStart(b)
  {
    hide U32At, U64At, Mandatory, AfterTail;
    if 8 > |b| || 8 + 4 > |b| {
      return None;
    }
    var model := ReadString(b, 8);
    if model.None? {
      return None;
    }
    assert 12 + |model.value| <= |b| by { StringInside(b, 8); }
    var description, p := ReadTail(b, 12 + |model.value|);
    return Some(WorkerStart(U64At(b, 0), NonEmpty(model), description));
  }

  method ReadSessionRename(b: bytes) returns (r: Option<Payload>)
    ensures r == DecodeSessionRename(b)
  {
    if |b| < 8 {
      return None;
    }
    var topic, p := ReadTail(b, 4);
    return Some(SessionRename(U32At(b, 0), topic));
  }

  method ReadWorkerReq(b: bytes) returns (r: Option<Payload>)
    ensures r == DecodeWorkerReq(b)
  {
    hide U32At;
    if |b| < 12 {
      return None;
    }
    var op := ReadString(b, 4);
    if op.None? {
      return None;
    }
    var p := 8 + |op.value|;
    if p + 4 > |b| {
      return None;
    }
    var args := ReadString(b, p);
    if args.None? {
      return None;
    }
    return Some(WorkerReq(U32At(b, 0), op, NonEmpty(args)));
  }

  method ReadWorkerRep(b: bytes) returns (r: Option<Payload>)
    ensures r == DecodeWorkerRep(b)
  {
    if |b| < 5 {
      return None;
    }
    var result, p := ReadTail(b, 1);
    return Some(WorkerRep(b[0] != 0, result));
  }

  method ReadApprovalReq(b: bytes) returns (r: Option<Payload>)
    ensures r == DecodeApprovalReq(b)
  {
    if |b| < 12 {
      return None;
    }
    var description, p := ReadTail(b, 8);
    return Some(ApprovalReq(U64At(b, 0), description));
  }

  method ReadApprovalRep(b: bytes) returns (r: Option<Payload>)
    ensures r == DecodeApprovalRep(b)
  {
    if |b| < 8 + 1 {
      return None;
    }
    return Some(ApprovalRep(U64At(b, 0), b[8] != 0));
  }
}
