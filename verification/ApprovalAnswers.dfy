/**
  * What becomes of the user's answers: every question is asked once, every answer reaches the thread
  * that asked, and a consented request is refused exactly when its wait timed out.
  */
module ApprovalAnswers {
  import opened Bytes
  import opened ApprovalProtocol
  import opened ApprovalSteps

  /** No question for `c` is on its way to the user. */
  ghost predicate Unasked(s: State, c: Corr) {
    && (forall m | m in s.toTui && m.ApprovalReq? :: m.corr != c)
    && s.pendingCorr != c
  }

  /** The message loop is about to decide the slot of `c`. */
  predicate BeingDecided(s: State, c: Corr) {
    s.notifier.Deciding? && s.notifier.slot < |s.slots| && s.slots[s.notifier.slot].corr == c
  }

  /** Neither a question nor an answer for `c` is on its way. */
  ghost predicate Quiet(s: State, c: Corr) {
    && Unasked(s, c)
    && (forall m | m in s.toBackend && m.ApprovalRep? :: m.corr != c)
    && !BeingDecided(s, c)
  }

  predicate AskedOnce(ms: seq<ToTui>) {
    forall i, j | 0 <= i < j < |ms| && ms[i].ApprovalReq? && ms[j].ApprovalReq? :: ms[i].corr != ms[j].corr
  }

  /** Nothing is asked or answered twice. */
  ghost predicate Single(s: State) {
    && AskedOnce(s.toTui)
    && (forall i, j | 0 <= i < j < |s.toBackend| && s.toBackend[i].ApprovalRep? && s.toBackend[j].ApprovalRep? ::
          s.toBackend[i].corr != s.toBackend[j].corr)
    && (forall m | m in s.toTui && m.ApprovalReq? :: m.corr != s.pendingCorr)
    && (forall m | m in s.toBackend && m.ApprovalRep? :: m.corr in s.threads && Unasked(s, m.corr))
    && (s.notifier.Deciding? && s.notifier.slot < |s.slots| ==>
          Unasked(s, s.slots[s.notifier.slot].corr)
          && (forall m | m in s.toBackend && m.ApprovalRep? :: m.corr != s.slots[s.notifier.slot].corr))
    && (forall p | p in s.pressed :: p.0 in s.threads)
  }

  /** Where the answer for thread `c` can be, given where the thread stands. */
  ghost predicate Placed(s: State, c: Corr)
    requires c in s.threads
  {
    var pc := s.threads[c].pc;
    && (pc.Running? || pc.Claimed? ==> Quiet(s, c) && !Consented(s, c))
    && (pc.Claimed? && pc.slot < |s.slots| ==> s.slots[pc.slot].decided == Undecided)
    && (pc.Waiting? && pc.slot < |s.slots| && s.slots[pc.slot].decided != Undecided ==> Quiet(s, c))
    && (Consented(s, c) ==>
          && Unasked(s, c)
          && ApprovalRep(c, false) !in s.toBackend
          && (BeingDecided(s, c) ==> s.notifier.approved)
          && (pc.Waiting? && pc.slot < |s.slots| ==>
                s.slots[pc.slot].decided == Approved || ApprovalRep(c, true) in s.toBackend || BeingDecided(s, c)))
  }

  ghost predicate Orderly(s: State) {
    Single(s) && forall c | c in s.threads :: Placed(s, c)
  }

  lemma InitOrderly()
    ensures Orderly(Init)
  {
  }

  // --- The TUI's side ----------------------------------------------------------------

  /** A worker or chat request joins the queue. */
  lemma RequestSingle(s: State, t: State, m: ToBackend)
    requires Single(s) && !m.ApprovalRep? && t.toBackend == s.toBackend + [m] && t.threads == s.threads
    requires t.toTui == s.toTui && t.pendingCorr == s.pendingCorr && t.notifier == s.notifier
    requires t.slots == s.slots && t.pressed == s.pressed
    ensures Single(t)
  {
  }

  lemma RequestOrderly(s: State, a: Action)
    requires Orderly(s) && (a.SendWorkerReq? || a.SendChat?)
    ensures Orderly(Act(s, a).value)
  {
    hide Single;
    var t := Act(s, a).value;
    var m := t.toBackend[|s.toBackend|];
    assert t.toBackend == s.toBackend + [m] && !m.ApprovalRep?;
    RequestSingle(s, t, m);
    forall c | c in t.threads ensures Placed(t, c) {
      assert Placed(s, c);
      assert Consented(t, c) == Consented(s, c);
    }
  }

  lemma ReceiveSingle(s: State)
    requires Single(s) && Faithful(s) && Act(s, TuiReceive).Some?
    ensures Single(Act(s, TuiReceive).value)
    ensures forall c: Corr :: Unasked(s, c) && c != 0 ==> Unasked(Act(s, TuiReceive).value, c)
  {
    hide Kept;
    var t := Act(s, TuiReceive).value;
    assert forall n | n in t.toTui :: n in s.toTui;
    assert s.toTui[0] in s.toTui;
  }

  lemma ReceiveOrderly(s: State)
    requires Orderly(s) && Fresh(s) && Faithful(s) && Act(s, TuiReceive).Some?
    ensures Orderly(Act(s, TuiReceive).value)
  {
    hide Kept, Single, Unasked;
    var t := Act(s, TuiReceive).value;
    ReceiveSingle(s);
    forall c | c in t.threads ensures Placed(t, c) {
      assert Placed(s, c);
      assert Consented(t, c) == Consented(s, c);
    }
  }

  lemma PressSingle(s: State, approved: bool)
    requires Single(s) && Fresh(s) && Faithful(s) && Owned(s) && Backed(s) && Act(s, PressKey(approved)).Some?
    ensures Single(Act(s, PressKey(approved)).value)
  {
    hide Kept, Describe;
    var t := Act(s, PressKey(approved)).value;
    assert t.toBackend == s.toBackend + [ApprovalRep(s.pendingCorr, approved)];
  }

  lemma PressPlaces(s: State, approved: bool, c: Corr)
    requires Single(s) && Fresh(s) && Faithful(s) && Act(s, PressKey(approved)).Some?
    requires c in s.threads && Placed(s, c)
    ensures Placed(Act(s, PressKey(approved)).value, c)
  {
    hide Kept, Describe;
    var t := Act(s, PressKey(approved)).value;
    var m := ApprovalRep(s.pendingCorr, approved);
    assert t.toBackend == s.toBackend + [m];
    assert c != s.pendingCorr ==> Consented(t, c) == Consented(s, c);
    assert m in t.toBackend;
  }

  lemma PressOrderly(s: State, approved: bool)
    requires Orderly(s) && Fresh(s) && Faithful(s) && Owned(s) && Backed(s) && Act(s, PressKey(approved)).Some?
    ensures Orderly(Act(s, PressKey(approved)).value)
  {
    hide Single, Placed, Fresh, Faithful, Owned, Backed;
    var t := Act(s, PressKey(approved)).value;
    PressSingle(s, approved);
    forall c | c in t.threads ensures Placed(t, c) {
      PressPlaces(s, approved, c);
    }
  }

  // --- The message loop --------------------------------------------------------------

  lemma DispatchSingle(s: State, a: Action)
    requires Single(s) && a.LoopReceive? && Act(s, a).Some? && !s.toBackend[0].ApprovalRep?
    ensures Single(Act(s, a).value)
    ensures forall m: ToBackend | m.ApprovalRep? :: m in s.toBackend <==> m in Act(s, a).value.toBackend
  {
    var t := Act(s, a).value;
    assert forall m | m in t.toBackend :: m in s.toBackend;
    assert forall m | m in s.toBackend && m.ApprovalRep? :: m in t.toBackend;
  }

  /** A worker request starts a thread, a chat request goes elsewhere. */
  lemma DispatchOrderly(s: State, a: Action)
    requires Orderly(s) && Fresh(s) && Faithful(s) && Owned(s) && Backed(s) && a.LoopReceive? && Act(s, a).Some?
    requires !s.toBackend[0].ApprovalRep?
    ensures Orderly(Act(s, a).value)
  {
    var t := Act(s, a).value;
    DispatchSingle(s, a);
    forall c | c in t.threads ensures Placed(t, c) {
      if c in s.threads {
        DispatchPlacesOld(s, t, c);
      } else {
        DispatchPlacesNew(s, t, c);
      }
    }
  }

  lemma DispatchPlacesOld(s: State, t: State, c: Corr)
    requires c in s.threads && Placed(s, c) && c in t.threads && t.threads[c] == s.threads[c]
    requires t == s.(threads := t.threads, toBackend := t.toBackend)
    requires forall m: ToBackend | m.ApprovalRep? :: m in s.toBackend <==> m in t.toBackend
    ensures Placed(t, c)
  {
    assert Consented(t, c) == Consented(s, c);
  }

  lemma DispatchPlacesNew(s: State, t: State, c: Corr)
    requires c !in s.threads && c > 0 && Faithful(s) && Single(s) && Owned(s) && Backed(s)
    requires c in t.threads && (t.threads[c].pc == Running || t.threads[c].pc == Replying(false))
    requires t == s.(threads := t.threads, toBackend := t.toBackend)
    requires forall m: ToBackend | m.ApprovalRep? :: m in s.toBackend <==> m in t.toBackend
    ensures Placed(t, c)
  {
    assert Quiet(t, c);
    assert !Consented(t, c);
  }

  lemma AnswerSingle(s: State, a: Action)
    requires Single(s) && Owned(s) && a.LoopReceive? && Act(s, a).Some? && s.toBackend[0].ApprovalRep?
    ensures Single(Act(s, a).value)
    ensures forall m: ToBackend | m in Act(s, a).value.toBackend :: m in s.toBackend
    ensures forall m: ToBackend | m in s.toBackend && m != s.toBackend[0] :: m in Act(s, a).value.toBackend
  {
    var t := Act(s, a).value;
    assert s.toBackend[0] in s.toBackend;
    assert forall n | n in t.toBackend :: n in s.toBackend;
    assert forall n | n in s.toBackend && n != s.toBackend[0] :: n in t.toBackend;
  }

  lemma AnswerOrderly(s: State, a: Action)
    requires Orderly(s) && Owned(s) && a.LoopReceive? && Act(s, a).Some?
    requires s.toBackend[0].ApprovalRep?
    ensures Orderly(Act(s, a).value)
  {
    var t := Act(s, a).value;
    AnswerSingle(s, a);
    forall c | c in t.threads ensures Placed(t, c) {
      AnswerPlaces(s, a, c);
    }
  }

  lemma AnswerPlaces(s: State, a: Action, c: Corr)
    requires Owned(s) && a.LoopReceive? && Act(s, a).Some? && s.toBackend[0].ApprovalRep?
    requires c in s.threads && Placed(s, c)
    requires forall m: ToBackend | m in Act(s, a).value.toBackend :: m in s.toBackend
    requires forall m: ToBackend | m in s.toBackend && m != s.toBackend[0] :: m in Act(s, a).value.toBackend
    requires Quiet(s, c) ==> s.toBackend[0].corr != c
    ensures Placed(Act(s, a).value, c)
  {
    assert Consented(Act(s, a).value, c) == Consented(s, c);
  }

  lemma NotifyOrderly(s: State)
    requires Orderly(s) && Owned(s) && Backed(s) && Act(s, NotifyWrite).Some?
    ensures Orderly(Act(s, NotifyWrite).value)
  {
    var t := Act(s, NotifyWrite).value;
    assert Single(t);
    forall c | c in t.threads ensures Placed(t, c) {
      assert Placed(s, c);
      assert Consented(t, c) == Consented(s, c);
    }
  }

  // --- The threads -------------------------------------------------------------------

  predicate ThreadStep(a: Action) {
    a.Claim? || a.Ask? || a.Wake? || a.Timeout? || a.Release? || a.Perform? || a.GiveUp? || a.Fail? || a.Report?
    || a.Read? || a.SendRep? || a.SendEnd?
  }

  lemma ClaimPlaces(s: State, c: Corr, d: Corr)
    requires Owned(s) && Act(s, Claim(c)).Some? && d in s.threads && Placed(s, d)
    ensures Placed(Act(s, Claim(c)).value, d)
  {
    hide Describe;
    assert Consented(Act(s, Claim(c)).value, d) == Consented(s, d);
  }

  lemma ClaimOrderly(s: State, c: Corr)
    requires Orderly(s) && Owned(s) && Act(s, Claim(c)).Some?
    ensures Orderly(Act(s, Claim(c)).value)
  {
    hide Placed, Owned;
    var t := Act(s, Claim(c)).value;
    forall d | d in t.threads ensures Placed(t, d) {
      ClaimPlaces(s, c, d);
    }
  }

  lemma AskSingle(s: State, t: State, m: ToTui)
    requires Single(s) && m.ApprovalReq? && Quiet(s, m.corr) && t.toTui == s.toTui + [m]
    requires t.threads.Keys == s.threads.Keys && t.pendingCorr == s.pendingCorr && t.notifier == s.notifier
    requires t.slots == s.slots && t.pressed == s.pressed && t.toBackend == s.toBackend
    ensures Single(t)
  {
  }

  lemma AskOrderly(s: State, c: Corr)
    requires Orderly(s) && Owned(s) && Fresh(s) && Act(s, Ask(c)).Some?
    ensures Orderly(Act(s, Ask(c)).value)
  {
    hide Single;
    var t := Act(s, Ask(c)).value;
    assert Placed(s, c);
    AskSingle(s, t, ApprovalReq(c, s.threads[c].desc));
    forall d | d in t.threads ensures Placed(t, d) {
      assert Placed(s, d);
      assert Consented(t, d) == Consented(s, d);
    }
  }

  /** From `s` to `t`, thread `c` went on, and at most the decision in its own slot changed. */
  ghost predicate WentOn(s: State, t: State, c: Corr) {
    && c in s.threads && c in t.threads && t.threads == s.threads[c := t.threads[c]]
    && t.threads[c].desc == s.threads[c].desc
    && (t.toTui == s.toTui
        || (t.toTui != [] && t.toTui[..|t.toTui| - 1] == s.toTui && !t.toTui[|s.toTui|].ApprovalReq?))
    && t.toBackend == s.toBackend && t.notifier == s.notifier && t.pressed == s.pressed
    && t.pendingCorr == s.pendingCorr && |t.slots| == |s.slots|
    && (forall i | 0 <= i < |s.slots| :: t.slots[i].corr == s.slots[i].corr)
    && (forall i | 0 <= i < |s.slots| && s.slots[i].corr != c :: t.slots[i].decided == s.slots[i].decided)
    && (t.threads[c].pc != s.threads[c].pc ==>
          !t.threads[c].pc.Running? && !t.threads[c].pc.Claimed? && !t.threads[c].pc.Waiting?)
    && (t.threads[c].pc == s.threads[c].pc ==> t.slots == s.slots)
  }

  /** Every step of a thread that is neither its claim nor its question. */
  lemma ThreadGoesOn(s: State, a: Action)
    requires Owned(s) && Act(s, a).Some?
    requires ThreadStep(a) && !a.Claim? && !a.Ask?
    ensures WentOn(s, Act(s, a).value, a.corr)
  {
  }

  /** One more message that asks nothing. */
  lemma SameQuestions(before: seq<ToTui>, after: seq<ToTui>)
    requires after == before || (after != [] && after[..|after| - 1] == before && !after[|before|].ApprovalReq?)
    requires AskedOnce(before)
    ensures forall m: ToTui | m.ApprovalReq? :: m in after <==> m in before
    ensures AskedOnce(after)
  {
    assert after != before ==> after == before + [after[|before|]];
  }

  lemma WentOnSingle(s: State, t: State, c: Corr)
    requires Single(s) && WentOn(s, t, c)
    ensures Single(t)
    ensures forall d: Corr :: Unasked(t, d) == Unasked(s, d)
    ensures forall d: Corr :: BeingDecided(t, d) == BeingDecided(s, d)
    ensures forall d: Corr :: Consented(t, d) == Consented(s, d)
  {
    hide Describe, Kept;
    SameQuestions(s.toTui, t.toTui);
  }

  lemma WentOnPlaces(s: State, t: State, c: Corr, d: Corr)
    requires Owned(s) && WentOn(s, t, c) && d in s.threads && Placed(s, d)
    requires Unasked(t, d) == Unasked(s, d) && BeingDecided(t, d) == BeingDecided(s, d)
    requires Consented(t, d) == Consented(s, d)
    ensures Placed(t, d)
  {
    hide Unasked, BeingDecided, Consented;
  }

  lemma ThreadOrderly(s: State, a: Action)
    requires Orderly(s) && Owned(s) && Act(s, a).Some?
    requires ThreadStep(a) && !a.Claim? && !a.Ask?
    ensures Orderly(Act(s, a).value)
  {
    hide Owned, Single, Placed, Act, Unasked, BeingDecided, Consented;
    var t := Act(s, a).value;
    ThreadGoesOn(s, a);
    WentOnSingle(s, t, a.corr);
    forall d | d in t.threads ensures Placed(t, d) {
      WentOnPlaces(s, t, a.corr, d);
    }
  }

  // --- Whole runs --------------------------------------------------------------------

  lemma StepOrderly(s: State, a: Action)
    requires Inv(s) && Orderly(s) && Act(s, a).Some?
    ensures Orderly(Act(s, a).value)
  {
    hide Owned, Fresh, Faithful, Backed, Performed, Replied, Orderly;
    match a
    case SendWorkerReq => RequestOrderly(s, a);
    case SendChat => RequestOrderly(s, a);
    case TuiReceive => ReceiveOrderly(s);
    case PressKey(approved) => PressOrderly(s, approved);
    case LoopReceive(_, _, _) => if s.toBackend[0].ApprovalRep? { AnswerOrderly(s, a); } else { DispatchOrderly(s, a); }
    case NotifyWrite => NotifyOrderly(s);
    case Claim(c) => ClaimOrderly(s, c);
    case Ask(c) => AskOrderly(s, c);
    case _ => ThreadOrderly(s, a);
  }

  lemma {:induction false} RunOrderly(s: State, actions: seq<Action>)
    requires Inv(s) && Orderly(s) && Run(s, actions).Some?
    ensures Inv(Run(s, actions).value) && Orderly(Run(s, actions).value)
    decreases |actions|
  {
    hide Inv, Orderly, Act;
    if actions != [] {
      StepInv(s, actions[0]);
      StepOrderly(s, actions[0]);
      RunOrderly(Act(s, actions[0]).value, actions[1..]);
    }
  }

  /**
    * In every run, while a thread waits for an answer the user has given, the answer is in its slot
    * or on its way there, and no denial is.
    */
  lemma AnswerIsHeeded(actions: seq<Action>, c: Corr)
    requires Run(Init, actions).Some?
    requires c in Run(Init, actions).value.threads && Run(Init, actions).value.threads[c].pc.Waiting?
    requires Consented(Run(Init, actions).value, c)
    ensures var t := Run(Init, actions).value;
      var slot := t.threads[c].pc.slot;
      && slot < |t.slots| && t.slots[slot].decided != Denied
      && ApprovalRep(c, false) !in t.toBackend
      && (|| t.slots[slot].decided == Approved
          || ApprovalRep(c, true) in t.toBackend
          || t.notifier == Deciding(slot, true))
  {
    InitInv();
    InitOrderly();
    RunOrderly(Init, actions);
    assert Placed(Run(Init, actions).value, c);
  }

  /**
    * How a thread came to its answer: denied without a timeout means the user never consented and
    * cannot any more; a timeout means it was not granted.
    */
  ghost predicate Story(s: State, c: Corr, timedOut: bool) {
    && (c !in s.threads ==> !timedOut)
    && (c in s.threads ==>
          var pc := s.threads[c].pc;
          && ((pc.Woken? || pc.Answered?) && !pc.granted ==> timedOut || (Unasked(s, c) && !Consented(s, c)))
          && (timedOut ==> !pc.Running? && !pc.Claimed? && !pc.Waiting?
                           && !((pc.Woken? || pc.Answered?) && pc.granted)))
  }

  /** A step of the thread itself. */
  lemma StoryOwn(s: State, a: Action, timedOut: bool)
    requires ThreadStep(a) && Act(s, a).Some? && Owned(s)
    requires a.corr in s.threads && Placed(s, a.corr) && Story(s, a.corr, timedOut)
    ensures Story(Act(s, a).value, a.corr, timedOut || a == Timeout(a.corr))
  {
    hide Describe, Kept, FirstFree;
    assert Consented(Act(s, a).value, a.corr) == Consented(s, a.corr);
  }

  /** A step of another thread. */
  lemma StoryOther(s: State, a: Action, c: Corr, timedOut: bool)
    requires ThreadStep(a) && Act(s, a).Some? && a.corr != c && Story(s, c, timedOut)
    ensures Story(Act(s, a).value, c, timedOut)
  {
    hide Describe, FirstFree;
    var t := Act(s, a).value;
    assert c in t.threads <==> c in s.threads;
    assert c in t.threads ==> t.threads[c] == s.threads[c];
    assert Consented(t, c) == Consented(s, c);
  }

  lemma StoryOutside(s: State, a: Action, c: Corr, timedOut: bool)
    requires Fresh(s) && Faithful(s) && Orderly(s) && Act(s, a).Some? && Story(s, c, timedOut) && !ThreadStep(a)
    ensures Story(Act(s, a).value, c, timedOut)
  {
    hide Kept, Placed;
    var t := Act(s, a).value;
  }

  lemma ActsOnThread(s: State, a: Action)
    requires ThreadStep(a) && Act(s, a).Some?
    ensures a.corr in s.threads
  {
  }

  lemma StoryStep(s: State, a: Action, c: Corr, timedOut: bool)
    requires Inv(s) && Orderly(s) && Act(s, a).Some? && Story(s, c, timedOut)
    ensures Story(Act(s, a).value, c, timedOut || a == Timeout(c))
  {
    hide Owned, Fresh, Faithful, Backed, Performed, Replied, Single, Story, Act;
    if ThreadStep(a) && a.corr == c {
      assert c in s.threads by { ActsOnThread(s, a); }
      StoryOwn(s, a, timedOut);
    } else if ThreadStep(a) {
      StoryOther(s, a, c, timedOut);
    } else {
      StoryOutside(s, a, c, timedOut);
    }
  }

  lemma {:induction false} RunStory(s: State, actions: seq<Action>, c: Corr, timedOut: bool)
    requires Inv(s) && Orderly(s) && Story(s, c, timedOut) && Run(s, actions).Some?
    ensures Story(Run(s, actions).value, c, timedOut || Timeout(c) in actions)
    decreases |actions|
  {
    hide Inv, Orderly, Story, Act;
    if actions != [] {
      StepInv(s, actions[0]);
      StepOrderly(s, actions[0]);
      StoryStep(s, actions[0], c, timedOut);
      RunStory(Act(s, actions[0]).value, actions[1..], c, timedOut || actions[0] == Timeout(c));
      assert Timeout(c) in actions <==> actions[0] == Timeout(c) || Timeout(c) in actions[1..];
    }
  }

  /**
    * In every run, once a thread has its answer to a request the user consented to, the request was
    * granted if and only if the wait did not time out.
    */
  lemma GrantedUnlessTimedOut(actions: seq<Action>, c: Corr)
    requires Run(Init, actions).Some?
    requires c in Run(Init, actions).value.threads && Run(Init, actions).value.threads[c].pc.Answered?
    requires Consented(Run(Init, actions).value, c)
    ensures Run(Init, actions).value.threads[c].pc.granted <==> Timeout(c) !in actions
  {
    InitInv();
    InitOrderly();
    RunStory(Init, actions, c, false);
  }
}
