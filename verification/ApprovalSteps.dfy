/** Every action of the approval protocol keeps its invariants, and so does every run. */
module ApprovalSteps {
  import opened Bytes
  import opened ApprovalProtocol

  lemma TuiSends(s: State, a: Action)
    requires Inv(s) && (a.SendWorkerReq? || a.SendChat?)
    ensures Inv(Act(s, a).value)
  {
    hide Owned, Faithful, Performed, Replied;
    var t := Act(s, a).value;
    assert Owned(t) && Faithful(t) && Performed(t) && Replied(t) by { SameThreads(s, t); }
  }

  /** The thread-side predicates do not look at what the TUI side changed. */
  lemma SameThreads(s: State, t: State)
    requires Owned(s) && Performed(s) && Replied(s)
    requires t.threads == s.threads && t.slots == s.slots && t.effects == s.effects && t.log == s.log
    requires s.pressed <= t.pressed
    ensures Owned(t) && Performed(t) && Replied(t)
    ensures Faithful(s) && t.toTui == s.toTui && t.pendingCorr == s.pendingCorr && t.pendingDesc == s.pendingDesc
        ==> Faithful(t)
  {
    hide Replies;
  }

  lemma TuiReceives(s: State)
    requires Inv(s) && Act(s, TuiReceive).Some?
    ensures Inv(Act(s, TuiReceive).value)
  {
    hide Owned, Fresh, Performed, Replied;
    var t := Act(s, TuiReceive).value;
    assert Owned(t) && Performed(t) && Replied(t) by { SameThreads(s, t); }
    assert Fresh(t) by { SameQueue(s, t); }
    assert forall m | m in t.toTui :: m in s.toTui;
    assert s.toTui[0] in s.toTui;
  }

  lemma SameQueue(s: State, t: State)
    requires Fresh(s) && t.threads == s.threads && t.toBackend == s.toBackend && t.nextCorr == s.nextCorr
    ensures Fresh(t)
  {
  }

  lemma KeyPressed(s: State, approved: bool)
    requires Inv(s) && Act(s, PressKey(approved)).Some?
    ensures Inv(Act(s, PressKey(approved)).value)
  {
    hide Owned, Performed, Replied;
    var t := Act(s, PressKey(approved)).value;
    assert Owned(t) && Performed(t) && Replied(t) by { SameThreads(s, t); }
  }

  lemma LoopSkips(s: State, t: State)
    requires Inv(s) && s.toBackend != []
    requires t == s.(toBackend := s.toBackend[1..]) ||
             (t == s.(toBackend := s.toBackend[1..], notifier := t.notifier) && t.notifier.Deciding?
              && t.notifier.slot < SLOTS && s.slots[t.notifier.slot].inUse
              && s.toBackend[0] == ApprovalRep(s.slots[t.notifier.slot].corr, t.notifier.approved))
    ensures Inv(t)
  {
    hide Owned, Performed, Replied, Faithful;
    assert Owned(t) && Performed(t) && Replied(t) && Faithful(t) by { SameThreads(s, t); }
    assert forall m | m in t.toBackend :: m in s.toBackend;
    assert s.toBackend[0] in s.toBackend;
    assert |s.slots| == SLOTS by { OwnedSize(s); }
  }

  lemma OwnedSize(s: State)
    requires Owned(s)
    ensures |s.slots| == SLOTS
  {
  }

  /** A new thread, under an id no thread had before. */
  ghost predicate Started(s: State, t: State, c: Corr) {
    c !in s.threads && c in t.threads && t.threads == s.threads[c := t.threads[c]]
    && (t.threads[c].pc == Running || t.threads[c].pc == Replying(false))
  }

  lemma StartedKeeps(s: State, t: State, c: Corr)
    requires Owned(s) && Faithful(s) && Performed(s) && Replied(s) && Started(s, t, c)
    requires t == s.(threads := t.threads, toBackend := t.toBackend)
    ensures Owned(t) && Faithful(t) && Performed(t) && Replied(t)
    ensures forall d: Corr :: Consented(s, d) ==> Consented(t, d)
  {
    hide Replies;
  }

  lemma Dispatched(s: State, op: FileOp, path: bytes, found: bool)
    requires Inv(s) && Act(s, LoopReceive(op, path, found)).Some? && s.toBackend[0].WorkerReq?
    ensures Inv(Act(s, LoopReceive(op, path, found)).value)
  {
    hide Owned, Faithful, Performed, Replied, Consented;
    var t := Act(s, LoopReceive(op, path, found)).value;
    assert s.toBackend[0].corr !in s.threads;
    StartedKeeps(s, t, s.toBackend[0].corr);
    assert forall m | m in t.toBackend :: m in s.toBackend;
  }

  lemma LoopReceives(s: State, op: FileOp, path: bytes, found: bool)
    requires Inv(s) && Act(s, LoopReceive(op, path, found)).Some?
    ensures Inv(Act(s, LoopReceive(op, path, found)).value)
  {
    hide Inv;
    if s.toBackend[0].WorkerReq? {
      Dispatched(s, op, path, found);
    } else {
      assert |s.slots| == SLOTS by { InvSize(s); }
      LoopSkips(s, Act(s, LoopReceive(op, path, found)).value);
    }
  }

  lemma InvSize(s: State)
    requires Inv(s)
    ensures |s.slots| == SLOTS
  {
  }

  lemma Notified(s: State)
    requires Inv(s) && Act(s, NotifyWrite).Some?
    ensures Inv(Act(s, NotifyWrite).value)
  {
  }

  lemma ClaimOwned(s: State, c: Corr)
    requires Owned(s) && Act(s, Claim(c)).Some?
    ensures Owned(Act(s, Claim(c)).value)
  {
  }

  lemma ClaimBacked(s: State, c: Corr)
    requires Backed(s) && Act(s, Claim(c)).Some?
    ensures Backed(Act(s, Claim(c)).value)
  {
    var t := Act(s, Claim(c)).value;
    ConsentKept(s, t, c, t.threads[c].pc);
    hide Consented;
  }

  lemma ThreadClaims(s: State, c: Corr)
    requires Inv(s) && Act(s, Claim(c)).Some?
    ensures Inv(Act(s, Claim(c)).value)
  {
    hide Owned, Fresh, Faithful, Backed, Performed, Replied;
    var t := Act(s, Claim(c)).value;
    var pc := t.threads[c].pc;
    ClaimOwned(s, c);
    FreshKept(s, t, c, pc);
    FaithfulKept(s, t, c, pc);
    ClaimBacked(s, c);
    PerformedKept(s, t, c, pc);
    RepliedKept(s, t, c, pc);
  }

  lemma ThreadAsks(s: State, c: Corr)
    requires Inv(s) && Act(s, Ask(c)).Some?
    ensures Inv(Act(s, Ask(c)).value)
  {
    hide Owned, Fresh, Faithful, Backed, Replied;
    var t := Act(s, Ask(c)).value;
    var pc := t.threads[c].pc;
    OwnedSize(s);
    OwnedKept(s, t, c, pc);
    FreshKept(s, t, c, pc);
    FaithfulKept(s, t, c, pc);
    BackedKept(s, t, c, pc);
    PerformedKept(s, t, c, pc);
    AskReplied(s, c);
  }

  lemma AskReplied(s: State, c: Corr)
    requires Replied(s) && Act(s, Ask(c)).Some?
    ensures Replied(Act(s, Ask(c)).value)
  {
    var t := Act(s, Ask(c)).value;
    RepliedMore(s, t, c, t.threads[c].pc, ApprovalReq(c, s.threads[c].desc));
  }

  lemma ThreadWakes(s: State, c: Corr)
    requires Inv(s) && Act(s, Wake(c)).Some?
    ensures Inv(Act(s, Wake(c)).value)
  {
    hide Fresh, Faithful, Replied;
    var t := Act(s, Wake(c)).value;
    var pc := t.threads[c].pc;
    FreshKept(s, t, c, pc);
    FaithfulKept(s, t, c, pc);
    RepliedKept(s, t, c, pc);
  }

  lemma ThreadTimesOut(s: State, c: Corr)
    requires Inv(s) && Act(s, Timeout(c)).Some?
    ensures Inv(Act(s, Timeout(c)).value)
  {
    hide Fresh, Faithful, Replied;
    var t := Act(s, Timeout(c)).value;
    var pc := t.threads[c].pc;
    FreshKept(s, t, c, pc);
    FaithfulKept(s, t, c, pc);
    RepliedKept(s, t, c, pc);
  }

  lemma ThreadReleases(s: State, c: Corr)
    requires Inv(s) && Act(s, Release(c)).Some?
    ensures Inv(Act(s, Release(c)).value)
  {
    hide Fresh, Faithful, Replied;
    var t := Act(s, Release(c)).value;
    var pc := t.threads[c].pc;
    FreshKept(s, t, c, pc);
    FaithfulKept(s, t, c, pc);
    RepliedKept(s, t, c, pc);
  }

  lemma ThreadPerforms(s: State, c: Corr, success: bool)
    requires Inv(s) && Act(s, Perform(c, success)).Some?
    ensures Inv(Act(s, Perform(c, success)).value)
  {
    hide Owned, Fresh, Faithful, Replied;
    var t := Act(s, Perform(c, success)).value;
    var pc := t.threads[c].pc;
    OwnedSize(s);
    OwnedKept(s, t, c, pc);
    FreshKept(s, t, c, pc);
    FaithfulKept(s, t, c, pc);
    RepliedKept(s, t, c, pc);
    BackedKept(s, t, c, pc);
    ConsentKept(s, t, c, pc);
  }

  /** A thread that turns to its reply without having touched a file. */
  lemma ThreadTurns(s: State, a: Action)
    requires Inv(s) && Act(s, a).Some? && (a.GiveUp? || a.Fail? || a.Read?)
    ensures Inv(Act(s, a).value)
  {
    hide Owned, Fresh, Faithful, Backed, Performed, Replied;
    var t := Act(s, a).value;
    var c := a.corr;
    var pc := t.threads[c].pc;
    OwnedSize(s);
    OwnedKept(s, t, c, pc);
    FreshKept(s, t, c, pc);
    FaithfulKept(s, t, c, pc);
    BackedKept(s, t, c, pc);
    PerformedKept(s, t, c, pc);
    RepliedKept(s, t, c, pc);
  }

  /** A thread that sends progress, its result or its end. */
  lemma ThreadSends(s: State, a: Action)
    requires Inv(s) && Act(s, a).Some? && (a.Report? || a.SendRep? || a.SendEnd?)
    ensures Inv(Act(s, a).value)
  {
    hide Owned, Fresh, Faithful, Backed, Performed, Replied;
    var t := Act(s, a).value;
    var c := a.corr;
    var pc := t.threads[c].pc;
    assert OnlyMoved(s, t, c, pc);
    OwnedSize(s);
    OwnedKept(s, t, c, pc);
    FreshKept(s, t, c, pc);
    FaithfulKept(s, t, c, pc);
    BackedKept(s, t, c, pc);
    PerformedKept(s, t, c, pc);
    SendReplied(s, a);
  }

  lemma SendReplied(s: State, a: Action)
    requires Replied(s) && Act(s, a).Some? && (a.Report? || a.SendRep? || a.SendEnd?)
    ensures Replied(Act(s, a).value)
  {
    var t := Act(s, a).value;
    var m := if a.Report? then Progress(a.corr)
             else if a.SendRep? then WorkerRep(a.corr, s.threads[a.corr].pc.success) else WorkerEnd(a.corr);
    assert RepliedAs(Replies(s.log, a.corr), s.threads[a.corr].pc, a.corr);
    RepliedMore(s, t, a.corr, t.threads[a.corr].pc, m);
  }

  lemma StepInv(s: State, a: Action)
    requires Inv(s) && Act(s, a).Some?
    ensures Inv(Act(s, a).value)
  {
    hide Inv, Act;
    match a
    case SendWorkerReq => TuiSends(s, a);
    case SendChat => TuiSends(s, a);
    case TuiReceive => TuiReceives(s);
    case PressKey(approved) => KeyPressed(s, approved);
    case LoopReceive(op, path, found) => LoopReceives(s, op, path, found);
    case NotifyWrite => Notified(s);
    case Claim(c) => ThreadClaims(s, c);
    case Ask(c) => ThreadAsks(s, c);
    case Wake(c) => ThreadWakes(s, c);
    case Timeout(c) => ThreadTimesOut(s, c);
    case Release(c) => ThreadReleases(s, c);
    case Perform(c, success) => ThreadPerforms(s, c, success);
    case GiveUp(c) => ThreadTurns(s, a);
    case Fail(c) => ThreadTurns(s, a);
    case Report(c) => ThreadSends(s, a);
    case Read(c, success) => ThreadTurns(s, a);
    case SendRep(c) => ThreadSends(s, a);
    case SendEnd(c) => ThreadSends(s, a);
  }

  lemma {:induction false} RunInv(s: State, actions: seq<Action>)
    requires Inv(s) && Run(s, actions).Some?
    ensures Inv(Run(s, actions).value)
    decreases |actions|
  {
    hide Inv, Act;
    if actions != [] {
      StepInv(s, actions[0]);
      RunInv(Act(s, actions[0]).value, actions[1..]);
    }
  }
}
