/** The eight payload formats: what they carry, how they are written, and how any buffer is read. */
module IpcPayloads {
  import opened Bytes
  import opened WireFormat

  /** One chat message of a request; `isUser` is copied as it is. */
  datatype Turn = Turn(isUser: byte, text: bytes)

  /** A `char *` that may be NULL is an option. */
  datatype Payload =
    | ReqSend(session: u32, turns: seq<Turn>, model: Option<bytes>, provider: Option<bytes>)
    | RepFinal(session: u32, content: Option<bytes>, reasoning: Option<bytes>)
    | WorkerStart(parent: u64, model: Option<bytes>, description: Option<bytes>)
    | SessionRename(session: u32, topic: Option<bytes>)
    | WorkerReq(workerType: u32, op: Option<bytes>, args: Option<bytes>)
    | WorkerRep(success: bool, result: Option<bytes>)
    | ApprovalReq(reqCorr: u64, description: Option<bytes>)
    | ApprovalRep(reqCorr: u64, approved: bool)

  /** [u32 length][bytes]. */
  function Prefixed(s: bytes): (b: bytes)
    requires |s| < TWO_32
    ensures |b| == 4 + |s|
  {
    U32(|s|) + s
  }

  predicate TurnsFit(turns: seq<Turn>) {
    forall i | 0 <= i < |turns| :: |turns[i].text| < TWO_32
  }

  function TurnBytes(t: Turn): (b: bytes)
    requires |t.text| < TWO_32
    ensures |b| == 5 + |t.text|
  {
    [t.isUser] + Prefixed(t.text)
  }

  function TurnsBytes(turns: seq<Turn>): bytes
    requires TurnsFit(turns)
  {
    if turns == [] then [] else TurnBytes(turns[0]) + TurnsBytes(turns[1..])
  }

  predicate StringFits(o: Option<bytes>) {
    |OrEmpty(o)| < TWO_32
  }

  /** strlen fits the 32-bit lengths. */
  predicate Fits(m: Payload) {
    match m
    case ReqSend(_, turns, model, provider) =>
      |turns| < TWO_32 && TurnsFit(turns) && StringFits(model) && StringFits(provider)
    case RepFinal(_, content, reasoning) => StringFits(content) && StringFits(reasoning)
    case WorkerStart(_, model, description) => StringFits(model) && StringFits(description)
    case SessionRename(_, topic) => StringFits(topic)
    case WorkerReq(_, op, args) => StringFits(op) && StringFits(args)
    case WorkerRep(_, result) => StringFits(result)
    case ApprovalReq(_, description) => StringFits(description)
    case ApprovalRep(_, _) => true
  }

  /** The bytes of a payload. */
  function Wire(m: Payload): bytes
    requires Fits(m)
  {
    match m
    case ReqSend(session, turns, model, provider) =>
      U32(session) + (U32(|turns|) + (TurnsBytes(turns) + (Prefixed(OrEmpty(model)) + Prefixed(OrEmpty(provider)))))
    case RepFinal(session, content, reasoning) =>
      U32(session) + (Prefixed(OrEmpty(content)) + Prefixed(OrEmpty(reasoning)))
    case WorkerStart(parent, model, description) =>
      U64(parent) + (Prefixed(OrEmpty(model)) + Prefixed(OrEmpty(description)))
    case SessionRename(session, topic) => U32(session) + Prefixed(OrEmpty(topic))
    case WorkerReq(workerType, op, args) => U32(workerType) + (Prefixed(OrEmpty(op)) + Prefixed(OrEmpty(args)))
    case WorkerRep(success, result) => [if success then 1 else 0] + Prefixed(OrEmpty(result))
    case ApprovalReq(reqCorr, description) => U64(reqCorr) + Prefixed(OrEmpty(description))
    case ApprovalRep(reqCorr, approved) => U64(reqCorr) + [if approved then 1 else 0]
  }

  /** What comes back: a NULL string and an empty one are the same on the wire; most decoders then give NULL. */
  function Normal(m: Payload): Payload {
    match m
    case ReqSend(session, turns, model, provider) => ReqSend(session, turns, NonEmpty(model), NonEmpty(provider))
    case RepFinal(session, content, reasoning) => RepFinal(session, Some(OrEmpty(content)), NonEmpty(reasoning))
    case WorkerStart(parent, model, description) => WorkerStart(parent, NonEmpty(model), NonEmpty(description))
    case SessionRename(session, topic) => SessionRename(session, NonEmpty(topic))
    case WorkerReq(workerType, op, args) => WorkerReq(workerType, Some(OrEmpty(op)), NonEmpty(args))
    case WorkerRep(success, result) => WorkerRep(success, NonEmpty(result))
    case ApprovalReq(reqCorr, description) => ApprovalReq(reqCorr, NonEmpty(description))
    case ApprovalRep(_, _) => m
  }

  /** The same texts, NULL and empty not told apart, and the same numbers. */
  predicate SameTexts(m: Payload, n: Payload) {
    match m
    case ReqSend(session, turns, model, provider) =>
      && n.ReqSend? && n.session == session && n.turns == turns
      && OrEmpty(n.model) == OrEmpty(model) && OrEmpty(n.provider) == OrEmpty(provider)
    case RepFinal(session, content, reasoning) =>
      && n.RepFinal? && n.session == session
      && OrEmpty(n.content) == OrEmpty(content) && OrEmpty(n.reasoning) == OrEmpty(reasoning)
    case WorkerStart(parent, model, description) =>
      && n.WorkerStart? && n.parent == parent
      && OrEmpty(n.model) == OrEmpty(model) && OrEmpty(n.description) == OrEmpty(description)
    case SessionRename(session, topic) =>
      n.SessionRename? && n.session == session && OrEmpty(n.topic) == OrEmpty(topic)
    case WorkerReq(workerType, op, args) =>
      && n.WorkerReq? && n.workerType == workerType
      && OrEmpty(n.op) == OrEmpty(op) && OrEmpty(n.args) == OrEmpty(args)
    case WorkerRep(success, result) => n.WorkerRep? && n.success == success && OrEmpty(n.result) == OrEmpty(result)
    case ApprovalReq(reqCorr, description) =>
      n.ApprovalReq? && n.reqCorr == reqCorr && OrEmpty(n.description) == OrEmpty(description)
    case ApprovalRep(_, _) => n == m
  }

  predicate NotBlank(o: Option<bytes>) {
    o != Some([])
  }

  /** No string is empty instead of NULL, and those always sent are no NULL. */
  predicate InNormalForm(m: Payload) {
    match m
    case ReqSend(_, _, model, provider) => NotBlank(model) && NotBlank(provider)
    case RepFinal(_, content, reasoning) => content.Some? && NotBlank(reasoning)
    case WorkerStart(_, model, description) => NotBlank(model) && NotBlank(description)
    case SessionRename(_, topic) => NotBlank(topic)
    case WorkerReq(_, op, args) => op.Some? && NotBlank(args)
    case WorkerRep(_, result) => NotBlank(result)
    case ApprovalReq(_, description) => NotBlank(description)
    case ApprovalRep(_, _) => true
  }

  /** What comes back has the same texts and numbers, and is the very payload exactly when that is in normal form. */
  lemma NormalExactly(m: Payload)
    ensures SameTexts(m, Normal(m)) && InNormalForm(Normal(m))
    ensures Normal(m) == m <==> InNormalForm(m)
  {
  }

  // --- Reading any buffer ----------------------------------------------------------------

  /** A string whose announced length must fit in what is left. */
  function Mandatory(b: bytes, p: nat): Option<bytes> {
    if p + 4 > |b| || p + 4 + U32At(b, p) > |b| then None else Some(b[p + 4..p + 4 + U32At(b, p)])
  }

  /** A tail that is taken only when it is there, not empty and whole. */
  function Tail(b: bytes, p: nat): Option<bytes> {
    if Mandatory(b, p) == Some([]) then None else Mandatory(b, p)
  }

  /** Where reading goes on after a tail. */
  function AfterTail(b: bytes, p: nat): nat {
    if p + 4 > |b| then p else if Tail(b, p).Some? then p + 4 + |Tail(b, p).value| else p + 4
  }

  function ReadTurns(b: bytes, p: nat, n: nat): (r: Option<(seq<Turn>, nat)>)
    ensures r.Some? ==> |r.value.0| == n && (p <= |b| ==> p <= r.value.1 <= |b|)
    decreases n
  {
    if n == 0 then Some(([], p))
    else if p + 5 > |b| || Mandatory(b, p + 1).None? then None
    else
      var text := Mandatory(b, p + 1).value;
      var rest := ReadTurns(b, p + 5 + |text|, n - 1);
      if rest.None? then None else Some(([Turn(b[p], text)] + rest.value.0, rest.value.1))
  }

  /** `nullForZero`: calloc gives NULL when asked for nothing. */
  function DecodeReqSend(b: bytes, nullForZero: bool): Option<Payload> {
    if |b| < 8 then None
    else if U32At(b, 4) == 0 && nullForZero then None
    else
      var turns := ReadTurns(b, 8, U32At(b, 4));
      if turns.None? then None
      else
        var p := turns.value.1;
        Some(ReqSend(U32At(b, 0), turns.value.0, Tail(b, p), Tail(b, AfterTail(b, p))))
  }

  function DecodeRepFinal(b: bytes): Option<Payload> {
    if |b| < 12 || Mandatory(b, 4).None? then None
    else
      var content := Mandatory(b, 4).value;
      Some(RepFinal(U32At(b, 0), Some(content), Tail(b, 8 + |content|)))
  }

  function DecodeWorkerStart(b: bytes): Option<Payload> {
    if |b| < 12 || Mandatory(b, 8).None? then None
    else Some(WorkerStart(U64At(b, 0), Tail(b, 8), Tail(b, 12 + |Mandatory(b, 8).value|)))
  }

  function DecodeSessionRename(b: bytes): Option<Payload> {
    if |b| < 8 then None else Some(SessionRename(U32At(b, 0), Tail(b, 4)))
  }

  function DecodeWorkerReq(b: bytes): Option<Payload> {
    if |b| < 12 || Mandatory(b, 4).None? then None
    else
      var op := Mandatory(b, 4).value;
      if Mandatory(b, 8 + |op|).None? then None
      else Some(WorkerReq(U32At(b, 0), Some(op), Tail(b, 8 + |op|)))
  }

  function DecodeWorkerRep(b: bytes): Option<Payload> {
    if |b| < 5 then None else Some(WorkerRep(b[0] != 0, Tail(b, 1)))
  }

  function DecodeApprovalReq(b: bytes): Option<Payload> {
    if |b| < 12 then None else Some(ApprovalReq(U64At(b, 0), Tail(b, 8)))
  }

  function DecodeApprovalRep(b: bytes): Option<Payload> {
    if |b| < 9 then None else Some(ApprovalRep(U64At(b, 0), b[8] != 0))
  }

  /** The decoder that goes with a payload's message type. */
  function DecodeLike(m: Payload, b: bytes, nullForZero: bool): Option<Payload> {
    match m
    case ReqSend(_, _, _, _) => DecodeReqSend(b, nullForZero)
    case RepFinal(_, _, _) => DecodeRepFinal(b)
    case WorkerStart(_, _, _) => DecodeWorkerStart(b)
    case SessionRename(_, _) => DecodeSessionRename(b)
    case WorkerReq(_, _, _) => DecodeWorkerReq(b)
    case WorkerRep(_, _) => DecodeWorkerRep(b)
    case ApprovalReq(_, _) => DecodeApprovalReq(b)
    case ApprovalRep(_, _) => DecodeApprovalRep(b)
  }

  // --- Round trips -----------------------------------------------------------------------

  lemma MandatoryIsRead(b: bytes, p: nat, s: bytes)
    requires |s| < TWO_32 && At(b, p, Prefixed(s))
    ensures Mandatory(b, p) == Some(s) && p + 4 + |s| <= |b|
  {
    hide U32At, U32;
    AtSplit(b, p, U32(|s|), s);
    U32IsRead(b, p, |s|);
  }

  lemma TailIsRead(b: bytes, p: nat, o: Option<bytes>)
    requires StringFits(o) && At(b, p, Prefixed(OrEmpty(o)))
    ensures Mandatory(b, p) == Some(OrEmpty(o)) && Tail(b, p) == NonEmpty(o)
    ensures AfterTail(b, p) == p + 4 + |OrEmpty(o)| <= |b|
  {
    hide U32At, U32;
    MandatoryIsRead(b, p, OrEmpty(o));
  }

  lemma {:induction false} TurnsAreRead(b: bytes, p: nat, turns: seq<Turn>)
    requires TurnsFit(turns) && At(b, p, TurnsBytes(turns))
    ensures ReadTurns(b, p, |turns|) == Some((turns, p + |TurnsBytes(turns)|))
    decreases |turns|
  {
    hide U32At, U32, Mandatory, Prefixed;
    if turns != [] {
      var t := turns[0];
      AtSplit(b, p, TurnBytes(t), TurnsBytes(turns[1..]));
      AtHead(b, p, t.isUser, Prefixed(t.text));
      MandatoryIsRead(b, p + 1, t.text);
      TurnsAreRead(b, p + 5 + |t.text|, turns[1..]);
      assert turns == [t] + turns[1..];
    }
  }

  lemma TwoStrings(b: bytes, head: bytes, x: bytes, y: bytes)
    requires |x| < TWO_32 && |y| < TWO_32 && At(b, 0, head + (Prefixed(x) + Prefixed(y)))
    ensures At(b, 0, head) && At(b, |head|, Prefixed(x)) && At(b, |head| + 4 + |x|, Prefixed(y))
  {
    AtSplit(b, 0, head, Prefixed(x) + Prefixed(y));
    AtSplit(b, |head|, Prefixed(x), Prefixed(y));
  }

  /** Decoding what was encoded gives the payload back, with NULL and empty strings identified. */
  lemma PayloadRoundTrip(m: Payload, nullForZero: bool)
    requires Fits(m)
    ensures m.ReqSend? && m.turns == [] && nullForZero ==> DecodeLike(m, Wire(m), nullForZero) == None
    ensures !(m.ReqSend? && m.turns == [] && nullForZero) ==> DecodeLike(m, Wire(m), nullForZero) == Some(Normal(m))
  {
    hide U32At, U64At, U32, U64, Tail, Mandatory, AfterTail, ReadTurns, Prefixed, DecodeReqSend, NonEmpty;
    var b := Wire(m);
    AtWhole(b);
    match m
    case ReqSend(session, turns, model, provider) => ReqSendRoundTrip(m, nullForZero);
    case RepFinal(session, content, reasoning) =>
      TwoStrings(b, U32(session), OrEmpty(content), OrEmpty(reasoning));
      U32IsRead(b, 0, session);
      MandatoryIsRead(b, 4, OrEmpty(content));
      TailIsRead(b, 8 + |OrEmpty(content)|, reasoning);
    case WorkerStart(parent, model, description) =>
      TwoStrings(b, U64(parent), OrEmpty(model), OrEmpty(description));
      U64IsRead(b, 0, parent);
      TailIsRead(b, 8, model);
      TailIsRead(b, 12 + |OrEmpty(model)|, description);
    case SessionRename(session, topic) =>
      AtSplit(b, 0, U32(session), Prefixed(OrEmpty(topic)));
      U32IsRead(b, 0, session);
      TailIsRead(b, 4, topic);
    case WorkerReq(workerType, op, args) =>
      TwoStrings(b, U32(workerType), OrEmpty(op), OrEmpty(args));
      U32IsRead(b, 0, workerType);
      MandatoryIsRead(b, 4, OrEmpty(op));
      TailIsRead(b, 8 + |OrEmpty(op)|, args);
    case WorkerRep(success, result) =>
      AtHead(b, 0, if success then 1 else 0, Prefixed(OrEmpty(result)));
      TailIsRead(b, 1, result);
    case ApprovalReq(reqCorr, description) =>
      AtSplit(b, 0, U64(reqCorr), Prefixed(OrEmpty(description)));
      U64IsRead(b, 0, reqCorr);
      TailIsRead(b, 8, description);
    case ApprovalRep(reqCorr, approved) =>
      AtSplit(b, 0, U64(reqCorr), [if approved then 1 else 0]);
      U64IsRead(b, 0, reqCorr);
      AtIndex(b, 8, [if approved then 1 else 0], 0);
  }

  lemma ReqSendRoundTrip(m: Payload, nullForZero: bool)
    requires Fits(m) && m.ReqSend?
    ensures m.turns == [] && nullForZero ==> DecodeReqSend(Wire(m), nullForZero) == None
    ensures !(m.turns == [] && nullForZero) ==> DecodeReqSend(Wire(m), nullForZero) == Some(Normal(m))
  {
    hide U32At, U32, Tail, Mandatory, AfterTail, ReadTurns, Prefixed, NonEmpty, TurnsBytes;
    var b := Wire(m);
    var tails := Prefixed(OrEmpty(m.model)) + Prefixed(OrEmpty(m.provider));
    AtWhole(b);
    AtSplit(b, 0, U32(m.session), U32(|m.turns|) + (TurnsBytes(m.turns) + tails));
    AtSplit(b, 4, U32(|m.turns|), TurnsBytes(m.turns) + tails);
    AtSplit(b, 8, TurnsBytes(m.turns), tails);
    var p := 8 + |TurnsBytes(m.turns)|;
    AtSplit(b, p, Prefixed(OrEmpty(m.model)), Prefixed(OrEmpty(m.provider)));
    U32IsRead(b, 0, m.session);
    U32IsRead(b, 4, |m.turns|);
    TurnsAreRead(b, 8, m.turns);
    TailIsRead(b, p, m.model);
    TailIsRead(b, p + 4 + |OrEmpty(m.model)|, m.provider);
  }
}
