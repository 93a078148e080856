/**
  * What holds over whole runs of the approval protocol: nothing is touched without the user's consent,
  * every slot in use has one owner, every request gets one reply and one end; and a run in which the
  * timeout overwrites an answer.
  */
module ApprovalRuns {
  import opened Bytes
  import opened ApprovalProtocol
  import opened ApprovalSteps

  /**
    * In every run, a file is created, modified or deleted only for a request whose own description,
    * naming that operation and that path, was the one the prompt was drawn from when the user pressed Y,
    * and at most once for each request.
    */
  lemma EffectsHaveConsent(actions: seq<Action>, i: nat)
    requires Run(Init, actions).Some?
    requires i < |Run(Init, actions).value.effects|
    ensures var t := Run(Init, actions).value;
      var e := t.effects[i];
      && e.corr in t.threads && t.threads[e.corr].op == e.op && t.threads[e.corr].path == e.path
      && (e.op.CreateFile? || e.op.ModifyFile? || e.op.DeleteFile?)
      && (e.corr, Kept(Describe(e.op, e.path))) in t.pressed
      && (forall j | 0 <= j < |t.effects| && j != i :: t.effects[j].corr != e.corr)
  {
    InitInv();
    RunInv(Init, actions);
    assert Run(Init, actions).value.effects[i] in Run(Init, actions).value.effects;
  }

  /** Slot `i` is in use exactly while a thread holds it, and that is the thread it is marked for. */
  ghost predicate SlotOwned(t: State, i: nat) {
    && i < |t.slots|
    && (t.slots[i].inUse <==> exists c :: c in t.threads && Holds(t.threads[c].pc, i))
    && (forall c | c in t.threads && Holds(t.threads[c].pc, i) :: c == t.slots[i].corr)
  }

  /**
    * In every run, a slot is in use exactly while a thread holds it: the one thread it is marked for,
    * and no other.
    */
  lemma SlotsHaveOneOwner(actions: seq<Action>, i: nat)
    requires Run(Init, actions).Some? && i < SLOTS
    ensures SlotOwned(Run(Init, actions).value, i)
  {
    InitInv();
    RunInv(Init, actions);
  }

  /** In every run, a thread that was granted its request had the user's consent to it. */
  lemma GrantedIsConsented(actions: seq<Action>, c: Corr)
    requires Run(Init, actions).Some?
    requires c in Run(Init, actions).value.threads
    requires var pc := Run(Init, actions).value.threads[c].pc; (pc.Woken? || pc.Answered?) && pc.granted
    ensures (c, Kept(Run(Init, actions).value.threads[c].desc)) in Run(Init, actions).value.pressed
  {
    InitInv();
    RunInv(Init, actions);
  }

  /** In every run, a finished worker request was sent one WORKER_REP, then one WORKER_END, and nothing after. */
  lemma OneReplyOneEnd(actions: seq<Action>, c: Corr)
    requires Run(Init, actions).Some?
    ensures var t := Run(Init, actions).value;
      var r := Replies(t.log, c);
      && (c !in t.threads ==> r == [])
      && (c in t.threads && t.threads[c].pc == Done ==> exists success :: r == [WorkerRep(c, success), WorkerEnd(c)])
      && (c in t.threads && t.threads[c].pc == RepSent ==> exists success :: r == [WorkerRep(c, success)])
      && (c in t.threads && t.threads[c].pc != Done && t.threads[c].pc != RepSent ==> r == [])
  {
    hide Run, Replies, Owned, Fresh, Faithful, Backed, Performed;
    InitInv();
    RunInv(Init, actions);
    var t := Run(Init, actions).value;
    var r := Replies(t.log, c);
    RepliesCarry(t.log, c);
    if c in t.threads {
      assert RepliedAs(r, t.threads[c].pc, c);
      if t.threads[c].pc == Done {
        assert r == [WorkerRep(c, r[0].success), WorkerEnd(c)];
      } else if t.threads[c].pc == RepSent {
        assert r == [WorkerRep(c, r[0].success)];
      }
    }
  }

  lemma {:induction false} RepliesCarry(log: seq<ToTui>, c: Corr)
    ensures forall m | m in Replies(log, c) :: m.corr == c
  {
    if log != [] {
      RepliesCarry(log[..|log| - 1], c);
    }
  }

  /**
    * The converse of GrantedIsConsented fails: the wait can end by timeout after the answer was
    * written, and the thread then writes its own denial over it.
    */
  lemma ApprovedYetDenied(path: bytes)
    ensures exists actions ::
      && Run(Init, actions).Some?
      && 1 in Run(Init, actions).value.threads
      && Run(Init, actions).value.threads[1] == Thread(CreateFile, path, Answered(false))
      && (1, Kept(Describe(CreateFile, path))) in Run(Init, actions).value.pressed
  {
    var s := Asked(path);
    var t := AnsweredLate(s, path);
    RunAppends(Init, AskActions(path), AnswerActions(path));
  }

  function AskActions(path: bytes): seq<Action> {
    [SendWorkerReq, LoopReceive(CreateFile, path, true), Claim(1), Ask(1), TuiReceive]
  }

  function AnswerActions(path: bytes): seq<Action> {
    [PressKey(true), LoopReceive(CreateFile, path, true), NotifyWrite, Timeout(1), Release(1)]
  }

  /** Request 1 waits in the first slot, and its question is on the screen. */
  predicate OnScreenOf(s: State, path: bytes) {
    && |s.slots| == SLOTS && s.slots[0] == Slot(true, 1, Undecided)
    && s.threads == map[1 := Thread(CreateFile, path, Waiting(0))]
    && s.notifier == Idle && s.toBackend == []
    && s.pendingCorr == 1 && s.pendingDesc == Kept(Describe(CreateFile, path))
  }

  lemma Asked(path: bytes) returns (s: State)
    ensures Run(Init, AskActions(path)) == Some(s)
    ensures OnScreenOf(s, path) && s.pressed == {}
    ensures s.effects == [] && s.log == [ApprovalReq(1, Describe(CreateFile, path))]
  {
    hide Describe, Kept, FirstFor;
    var s1 := Act(Init, SendWorkerReq).value;
    var s2 := Act(s1, LoopReceive(CreateFile, path, true)).value;
    var s3 := Act(s2, Claim(1)).value;
    var s4 := Act(s3, Ask(1)).value;
    s := Act(s4, TuiReceive).value;
    FiveActions(Init, SendWorkerReq, LoopReceive(CreateFile, path, true), Claim(1), Ask(1), TuiReceive, s1, s2, s3, s4);
  }

  lemma AnsweredLate(s: State, path: bytes) returns (t: State)
    requires OnScreenOf(s, path)
    ensures Run(s, AnswerActions(path)) == Some(t)
    ensures t.threads == map[1 := Thread(CreateFile, path, Answered(false))]
    ensures (1, Kept(Describe(CreateFile, path))) in t.pressed
  {
    hide Describe, Kept, FirstFree;
    var s1 := Act(s, PressKey(true)).value;
    var s2 := Act(s1, LoopReceive(CreateFile, path, true)).value;
    var s3 := Act(s2, NotifyWrite).value;
    var s4 := Act(s3, Timeout(1)).value;
    t := Act(s4, Release(1)).value;
    FiveActions(s, PressKey(true), LoopReceive(CreateFile, path, true), NotifyWrite, Timeout(1), Release(1),
                s1, s2, s3, s4);
  }

  lemma FiveActions(s: State, a: Action, b: Action, c: Action, d: Action, e: Action,
                    s1: State, s2: State, s3: State, s4: State)
    requires Act(s, a) == Some(s1) && Act(s1, b) == Some(s2) && Act(s2, c) == Some(s3) && Act(s3, d) == Some(s4)
    ensures Run(s, [a, b, c, d, e]) == Act(s4, e)
  {
    hide Act;
    assert [a, b, c, d, e][1..] == [b, c, d, e];
    assert [b, c, d, e][1..] == [c, d, e];
    assert [c, d, e][1..] == [d, e];
    assert [d, e][1..] == [e];
    assert [e][1..] == [];
    assert Run(s4, [e]) == Act(s4, e);
    assert Run(s3, [d, e]) == Act(s4, e);
    assert Run(s2, [c, d, e]) == Act(s4, e);
    assert Run(s1, [b, c, d, e]) == Act(s4, e);
  }

  lemma {:induction false} RunAppends(s: State, first: seq<Action>, second: seq<Action>)
    requires Run(s, first).Some?
    ensures Run(s, first + second) == Run(Run(s, first).value, second)
    decreases |first|
  {
    hide Act;
    if first == [] {
      assert first + second == second;
    } else {
      assert (first + second)[1..] == first[1..] + second;
      RunAppends(Act(s, first[0]).value, first[1..], second);
    }
  }
}
