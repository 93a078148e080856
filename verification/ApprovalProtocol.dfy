/**
  * The approval protocol between worker threads, the message loop of the backend and the TUI, as a
  * transition system. Its actions are the atomic steps of the C code: one critical section, one send,
  * one receive, one key press. A run is any sequence of enabled actions, so every interleaving of
  * threads, message loop, timeouts and key presses is a run.
  */
module ApprovalProtocol {
  import opened Bytes

  /** MAX_PENDING_APPROVALS. */
  const SLOTS: nat := 8

  /** A correlation id; 0 is the TUI's "none". Ids do not wrap. */
  type Corr = nat

  datatype Decision = Undecided | Approved | Denied

  /** A PendingApproval; its mutex and condition variable are the atomicity of the actions below. */
  datatype Slot = Slot(inUse: bool, corr: Corr, decided: Decision)

  /** Where a dispatch thread stands. */
  datatype Pc =
    | Running                           // before the approval, or reading
    | Claimed(slot: nat)                // slot taken, request not sent yet
    | Waiting(slot: nat)                // request sent
    | Woken(slot: nat, granted: bool)   // decision read, slot still taken
    | Answered(granted: bool)           // bw_request_approval has returned
    | Replying(success: bool)
    | RepSent
    | Done

  /** The operations of the file-system worker. */
  datatype FileOp = ReadFile | ListDir | CreateFile | ModifyFile | DeleteFile

  function Verb(op: FileOp): bytes {
    match op
    case CreateFile => Ascii("Create file: ")
    case ModifyFile => Ascii("Modify file: ")
    case DeleteFile => Ascii("Delete file: ")
    case _ => []
  }

  /** The description sent for approval; `path` is relative to the sandbox. */
  function Describe(op: FileOp, path: bytes): bytes {
    Verb(op) + path
  }

  /** A dispatch thread; reading and listing need no approval. */
  datatype Thread = Thread(op: FileOp, path: bytes, pc: Pc) {
    const mutating: bool := op.CreateFile? || op.ModifyFile? || op.DeleteFile?
    const desc: bytes := Describe(op, path)
  }

  datatype ToTui =
    | Progress(corr: Corr)
    | ApprovalReq(corr: Corr, desc: bytes)
    | WorkerRep(corr: Corr, success: bool)
    | WorkerEnd(corr: Corr)

  datatype ToBackend =
    | WorkerReq(corr: Corr)
    | ReqSend(corr: Corr)
    | ApprovalRep(corr: Corr, approved: bool)

  /** A file created, modified or deleted for request `corr`. */
  datatype Effect = Effect(corr: Corr, op: FileOp, path: bytes)

  /** The message loop between finding a slot and deciding it, holding approvals_mu. */
  datatype Notifier = Idle | Deciding(slot: nat, approved: bool)

  datatype State = State(
    slots: seq<Slot>,
    threads: map<Corr, Thread>,
    notifier: Notifier,
    toTui: seq<ToTui>,                  // FIFO channels
    toBackend: seq<ToBackend>,
    nextCorr: Corr,                     // next_corr
    pendingCorr: Corr,                  // pending_approval_corr
    pendingDesc: bytes,                 // pending_approval_desc
    pressed: set<(Corr, bytes)>,        // Y presses: the request and the text the prompt was drawn from
    effects: seq<Effect>,
    log: seq<ToTui>)                    // everything the backend ever sent

  /** What the TUI keeps of a description, and draws the prompt from: pending_approval_desc. */
  function Kept(desc: bytes): bytes {
    Upto(if desc == [] then UNKNOWN_OPERATION else desc, 511)
  }

  const UNKNOWN_OPERATION := Ascii("unknown operation")

  const FREE := Slot(false, 0, Undecided)

  const Init := State([FREE, FREE, FREE, FREE, FREE, FREE, FREE, FREE], map[], Idle, [], [], 1, 0, [], {}, [], [])

  /** First slot not in use, SLOTS when the table is full. */
  function FirstFree(slots: seq<Slot>): (i: nat)
    ensures i <= |slots|
    ensures i < |slots| ==> !slots[i].inUse
    ensures forall k | 0 <= k < i :: slots[k].inUse
  {
    if slots == [] then 0
    else if !slots[0].inUse then 0
    else
      assert forall k | 0 < k < |slots| :: slots[k] == slots[1..][k - 1];
      1 + FirstFree(slots[1..])
  }

  /** First slot in use for `corr`, SLOTS when there is none. */
  function FirstFor(slots: seq<Slot>, corr: Corr): (i: nat)
    ensures i <= |slots|
    ensures i < |slots| ==> slots[i].inUse && slots[i].corr == corr
    ensures forall k | 0 <= k < i :: !(slots[k].inUse && slots[k].corr == corr)
  {
    if slots == [] then 0
    else if slots[0].inUse && slots[0].corr == corr then 0
    else
      assert forall k | 0 < k < |slots| :: slots[k] == slots[1..][k - 1];
      1 + FirstFor(slots[1..], corr)
  }

  // --- Actions -----------------------------------------------------------------------

  datatype Action =
    | SendWorkerReq                                     // do_send_worker_req
    | SendChat                                          // a chat request takes an id too
    | TuiReceive                                        // check_ipc
    | PressKey(approved: bool)                          // Y or N
    | LoopReceive(op: FileOp, path: bytes, found: bool)
    | NotifyWrite                                       // second half of bw_notify_approval
    | Claim(corr: Corr)                                 // bw_request_approval, step by step
    | Ask(corr: Corr)
    | Wake(corr: Corr)
    | Timeout(corr: Corr)
    | Release(corr: Corr)
    | Perform(corr: Corr, success: bool)                // the file operation
    | GiveUp(corr: Corr)                                // denied
    | Fail(corr: Corr)                                  // an error before any approval
    | Report(corr: Corr)                                // bw_send_progress
    | Read(corr: Corr, success: bool)                   // read_file and list_dir
    | SendRep(corr: Corr)                               // bw_send_result, two sends
    | SendEnd(corr: Corr)

  predicate At(s: State, corr: Corr) {
    corr in s.threads
  }

  function Move(s: State, corr: Corr, pc: Pc): State
    requires At(s, corr)
  {
    s.(threads := s.threads[corr := s.threads[corr].(pc := pc)])
  }

  function Emit(s: State, m: ToTui): State {
    s.(toTui := s.toTui + [m], log := s.log + [m])
  }

  function Performing(s: State, corr: Corr, success: bool): State
    requires At(s, corr)
  {
    var effect := Effect(corr, s.threads[corr].op, s.threads[corr].path);
    Move(s.(effects := s.effects + [effect]), corr, Replying(success))
  }

  /** The state after an action; None when it is not enabled. */
  function Act(s: State, a: Action): Option<State> {
    match a
    case SendWorkerReq =>
      Some(s.(toBackend := s.toBackend + [WorkerReq(s.nextCorr)], nextCorr := s.nextCorr + 1))
    case SendChat =>
      Some(s.(toBackend := s.toBackend + [ReqSend(s.nextCorr)], nextCorr := s.nextCorr + 1))
    case TuiReceive =>
      if s.toTui == [] then None
      else
        var m := s.toTui[0];
        var t := s.(toTui := s.toTui[1..]);
        if m.ApprovalReq? then Some(t.(pendingCorr := m.corr, pendingDesc := Kept(m.desc))) else Some(t)
    case PressKey(approved) =>
      if s.pendingCorr == 0 then None
      else Some(s.(
        toBackend := s.toBackend + [ApprovalRep(s.pendingCorr, approved)],
        pressed := if approved then s.pressed + {(s.pendingCorr, s.pendingDesc)} else s.pressed,
        pendingCorr := 0, pendingDesc := []))
    case LoopReceive(op, path, found) =>
      if s.toBackend == [] || s.notifier != Idle then None
      else
        var m := s.toBackend[0];
        var t := s.(toBackend := s.toBackend[1..]);
        (match m
         case WorkerReq(corr) =>
           Some(t.(threads := t.threads[corr := Thread(op, path, if found then Running else Replying(false))]))
         case ReqSend(_) => Some(t)
         case ApprovalRep(corr, approved) =>
           var i := FirstFor(s.slots, corr);
           if i < |s.slots| then Some(t.(notifier := Deciding(i, approved))) else Some(t))
    case NotifyWrite =>
      if s.notifier == Idle || s.notifier.slot >= |s.slots| then None
      else
        var i := s.notifier.slot;
        Some(s.(notifier := Idle,
                slots := s.slots[i := s.slots[i].(decided := if s.notifier.approved then Approved else Denied)]))
    case Claim(corr) =>
      if !At(s, corr) || s.threads[corr].pc != Running || !s.threads[corr].mutating || s.notifier != Idle then None
      else
        var i := FirstFree(s.slots);
        if i == |s.slots| then Some(Move(s, corr, Answered(false)))
        else Some(Move(s.(slots := s.slots[i := Slot(true, corr, Undecided)]), corr, Claimed(i)))
    case Ask(corr) =>
      if !At(s, corr) || !s.threads[corr].pc.Claimed? then None
      else Some(Emit(Move(s, corr, Waiting(s.threads[corr].pc.slot)), ApprovalReq(corr, s.threads[corr].desc)))
    case Wake(corr) =>
      if !At(s, corr) || !s.threads[corr].pc.Waiting? then None
      else
        var i := s.threads[corr].pc.slot;
        if i >= |s.slots| || s.slots[i].decided == Undecided then None
        else Some(Move(s, corr, Woken(i, s.slots[i].decided == Approved)))
    case Timeout(corr) =>
      if !At(s, corr) || !s.threads[corr].pc.Waiting? || s.threads[corr].pc.slot >= |s.slots| then None
      else
        var i := s.threads[corr].pc.slot;
        Some(Move(s.(slots := s.slots[i := s.slots[i].(decided := Denied)]), corr, Woken(i, false)))
    case Release(corr) =>
      if !At(s, corr) || !s.threads[corr].pc.Woken? then None
      else if s.threads[corr].pc.slot >= |s.slots| || s.notifier != Idle then None
      else
        var i := s.threads[corr].pc.slot;
        Some(Move(s.(slots := s.slots[i := s.slots[i].(inUse := false)]), corr, Answered(s.threads[corr].pc.granted)))
    case Perform(corr, success) =>
      if !At(s, corr) || s.threads[corr].pc != Answered(true) then None
      else Some(Performing(s, corr, success))
    case GiveUp(corr) =>
      if !At(s, corr) || s.threads[corr].pc != Answered(false) then None
      else Some(Move(s, corr, Replying(false)))
    case Fail(corr) =>
      if !At(s, corr) || s.threads[corr].pc != Running then None
      else Some(Move(s, corr, Replying(false)))
    case Report(corr) =>
      if !At(s, corr) || s.threads[corr].pc != Running || s.threads[corr].mutating then None
      else Some(Emit(s, Progress(corr)))
    case Read(corr, success) =>
      if !At(s, corr) || s.threads[corr].pc != Running || s.threads[corr].mutating then None
      else Some(Move(s, corr, Replying(success)))
    case SendRep(corr) =>
      if !At(s, corr) || !s.threads[corr].pc.Replying? then None
      else Some(Emit(Move(s, corr, RepSent), WorkerRep(corr, s.threads[corr].pc.success)))
    case SendEnd(corr) =>
      if !At(s, corr) || s.threads[corr].pc != RepSent then None
      else Some(Emit(Move(s, corr, Done), WorkerEnd(corr)))
  }

  /** The state a run leads to; None when some action was not enabled. */
  function Run(s: State, actions: seq<Action>): Option<State>
    decreases |actions|
  {
    if actions == [] then Some(s)
    else
      var t := Act(s, actions[0]);
      if t.None? then None else Run(t.value, actions[1..])
  }

  // --- Invariants --------------------------------------------------------------------

  predicate Holds(pc: Pc, i: nat) {
    (pc.Claimed? || pc.Waiting? || pc.Woken?) && pc.slot == i
  }

  /** Every slot in use belongs to the thread that holds it, and to no other. */
  ghost predicate Owned(s: State) {
    && |s.slots| == SLOTS
    && (forall c | c in s.threads :: var pc := s.threads[c].pc;
          (pc.Claimed? || pc.Waiting? || pc.Woken?) ==>
            pc.slot < SLOTS && s.slots[pc.slot].inUse && s.slots[pc.slot].corr == c)
    && (forall i | 0 <= i < SLOTS :: s.slots[i].inUse ==>
          s.slots[i].corr in s.threads && Holds(s.threads[s.slots[i].corr].pc, i))
  }

  /** Ids are fresh: given out once, and above 0. */
  ghost predicate Fresh(s: State) {
    && s.nextCorr > 0
    && (forall c | c in s.threads :: 0 < c < s.nextCorr)
    && (forall i | 0 <= i < |s.toBackend| && s.toBackend[i].WorkerReq? ::
          0 < s.toBackend[i].corr < s.nextCorr && s.toBackend[i].corr !in s.threads)
    && (forall i, j | 0 <= i < j < |s.toBackend| && s.toBackend[i].WorkerReq? && s.toBackend[j].WorkerReq? ::
          s.toBackend[i].corr != s.toBackend[j].corr)
  }

  /** The user has pressed Y while the prompt was drawn from this request's description. */
  ghost predicate Consented(s: State, c: Corr) {
    c in s.threads && (c, Kept(s.threads[c].desc)) in s.pressed
  }

  /** Questions on their way to the screen are those of their threads. */
  ghost predicate Faithful(s: State) {
    && (forall m | m in s.toTui && m.ApprovalReq? ::
          m.corr in s.threads && s.threads[m.corr].mutating && s.threads[m.corr].desc == m.desc)
    && (s.pendingCorr != 0 ==> s.pendingCorr in s.threads && s.threads[s.pendingCorr].mutating
                               && s.pendingDesc == Kept(s.threads[s.pendingCorr].desc))
  }

  /** A positive answer anywhere on its way back goes with the user's consent to that very request. */
  ghost predicate Backed(s: State) {
    && (forall m | m in s.toBackend && m.ApprovalRep? && m.approved :: Consented(s, m.corr))
    && (s.notifier.Deciding? ==>
          s.notifier.slot < |s.slots| && s.slots[s.notifier.slot].inUse
          && (s.notifier.approved ==> Consented(s, s.slots[s.notifier.slot].corr)))
    && (forall i | 0 <= i < |s.slots| :: s.slots[i].inUse && s.slots[i].decided == Approved ==>
          Consented(s, s.slots[i].corr))
    && (forall c | c in s.threads && (s.threads[c].pc.Woken? || s.threads[c].pc.Answered?) ::
          s.threads[c].pc.granted ==> Consented(s, c))
  }

  predicate BeforeEffect(pc: Pc) {
    pc.Running? || pc.Claimed? || pc.Waiting? || pc.Woken? || pc.Answered?
  }

  /** Effects are those of consented requests, at most one each. */
  ghost predicate Performed(s: State) {
    && (forall e | e in s.effects ::
          Consented(s, e.corr) && s.threads[e.corr].mutating
          && e.op == s.threads[e.corr].op && e.path == s.threads[e.corr].path
          && !BeforeEffect(s.threads[e.corr].pc))
    && (forall i, j | 0 <= i < j < |s.effects| :: s.effects[i].corr != s.effects[j].corr)
    && (forall c | c in s.threads ::
          (s.threads[c].pc.Claimed? || s.threads[c].pc.Waiting? || s.threads[c].pc.Woken? || s.threads[c].pc.Answered?)
          ==> s.threads[c].mutating)
  }

  /** The replies in a log that carry an id. */
  function Replies(log: seq<ToTui>, c: Corr): seq<ToTui> {
    if log == [] then []
    else
      var m := log[|log| - 1];
      Replies(log[..|log| - 1], c) + (if (m.WorkerRep? || m.WorkerEnd?) && m.corr == c then [m] else [])
  }

  predicate RepliedAs(replies: seq<ToTui>, pc: Pc, c: Corr) {
    match pc
    case RepSent => |replies| == 1 && replies[0].WorkerRep?
    case Done => |replies| == 2 && replies[0].WorkerRep? && replies[1] == WorkerEnd(c)
    case _ => replies == []
  }

  /** Every thread has sent exactly the replies its position calls for. */
  ghost predicate Replied(s: State) {
    forall c: Corr ::
      if c in s.threads then RepliedAs(Replies(s.log, c), s.threads[c].pc, c) else Replies(s.log, c) == []
  }

  ghost predicate Inv(s: State) {
    Owned(s) && Fresh(s) && Faithful(s) && Backed(s) && Performed(s) && Replied(s)
  }

  // --- What keeps each invariant -----------------------------------------------------

  lemma InitInv()
    ensures Inv(Init)
  {
    assert forall c: Corr :: Replies([], c) == [];
  }

  lemma RepliesAppend(log: seq<ToTui>, m: ToTui, c: Corr)
    ensures Replies(log + [m], c)
         == Replies(log, c) + (if (m.WorkerRep? || m.WorkerEnd?) && m.corr == c then [m] else [])
  {
    assert (log + [m])[..|log|] == log;
  }

  /** `t` differs from `s` in the threads only by the position of thread `c`. */
  ghost predicate OnlyMoved(s: State, t: State, c: Corr, pc: Pc) {
    c in s.threads && t.threads == s.threads[c := s.threads[c].(pc := pc)]
  }

  lemma FreshKept(s: State, t: State, c: Corr, pc: Pc)
    requires Fresh(s) && OnlyMoved(s, t, c, pc) && t.nextCorr == s.nextCorr && t.toBackend == s.toBackend
    ensures Fresh(t)
  {
  }

  /** Positions do not matter on the way to the screen; thread `c` may have asked. */
  lemma FaithfulKept(s: State, t: State, c: Corr, pc: Pc)
    requires Faithful(s) && OnlyMoved(s, t, c, pc)
    requires t.pendingCorr == s.pendingCorr && t.pendingDesc == s.pendingDesc
    requires forall m | m in t.toTui && m.ApprovalReq? ::
      m in s.toTui || (m == ApprovalReq(c, s.threads[c].desc) && s.threads[c].mutating)
    ensures Faithful(t)
  {
  }

  /** Nothing new in the log, and thread `c` owes the same replies as before. */
  lemma RepliedKept(s: State, t: State, c: Corr, pc: Pc)
    requires Replied(s) && OnlyMoved(s, t, c, pc) && t.log == s.log
    requires pc != RepSent && pc != Done && s.threads[c].pc != RepSent && s.threads[c].pc != Done
    ensures Replied(t)
  {
    hide Replies;
  }

  /** One message more in the log. */
  lemma RepliedMore(s: State, t: State, c: Corr, pc: Pc, m: ToTui)
    requires Replied(s) && OnlyMoved(s, t, c, pc) && t.log == s.log + [m] && m.corr == c
    requires RepliedAs(Replies(s.log, c) + (if m.WorkerRep? || m.WorkerEnd? then [m] else []), pc, c)
    ensures Replied(t)
  {
    forall d: Corr
      ensures if d in t.threads then RepliedAs(Replies(t.log, d), t.threads[d].pc, d) else Replies(t.log, d) == []
    {
      RepliesAppend(s.log, m, d);
      assert d != c ==> Replies(s.log, d) + [] == Replies(s.log, d);
    }
  }

  /** A thread without a slot, before and after: the table keeps its owners. */
  lemma OwnedKept(s: State, t: State, c: Corr, pc: Pc)
    requires Owned(s) && OnlyMoved(s, t, c, pc)
    requires |t.slots| == SLOTS
    requires forall i | 0 <= i < SLOTS :: t.slots[i].inUse == s.slots[i].inUse && t.slots[i].corr == s.slots[i].corr
    requires forall i | 0 <= i < SLOTS :: Holds(pc, i) == Holds(s.threads[c].pc, i)
    requires (pc.Claimed? || pc.Waiting? || pc.Woken?)
         <==> (s.threads[c].pc.Claimed? || s.threads[c].pc.Waiting? || s.threads[c].pc.Woken?)
    requires (pc.Claimed? || pc.Waiting? || pc.Woken?) ==> pc.slot == s.threads[c].pc.slot
    ensures Owned(t)
  {
  }

  /** Consent is never withdrawn, and descriptions never change. */
  lemma ConsentKept(s: State, t: State, c: Corr, pc: Pc)
    requires OnlyMoved(s, t, c, pc) && s.pressed <= t.pressed
    ensures forall d: Corr :: Consented(s, d) ==> Consented(t, d)
  {
  }

  lemma BackedKept(s: State, t: State, c: Corr, pc: Pc)
    requires Backed(s) && OnlyMoved(s, t, c, pc) && s.pressed <= t.pressed
    requires t.slots == s.slots && t.toBackend == s.toBackend && t.notifier == s.notifier
    requires (pc.Woken? || pc.Answered?) && pc.granted ==> Consented(s, c)
    ensures Backed(t)
  {
    ConsentKept(s, t, c, pc);
    hide Consented;
  }

  lemma PerformedKept(s: State, t: State, c: Corr, pc: Pc)
    requires Performed(s) && OnlyMoved(s, t, c, pc) && s.pressed <= t.pressed && t.effects == s.effects
    requires BeforeEffect(pc) ==> BeforeEffect(s.threads[c].pc)
    requires pc.Claimed? || pc.Waiting? || pc.Woken? || pc.Answered? ==> s.threads[c].mutating
    ensures Performed(t)
  {
    ConsentKept(s, t, c, pc);
    hide Consented;
  }
}
