/**
  * What comes of a worker request: an operation that was performed is an effect, and the only one of its
  * request; the reply says what the operation said; and what the user consented to is carried out unless
  * the wait timed out.
  */
module ApprovalOutcomes {
  import opened Bytes
  import opened ApprovalProtocol
  import opened ApprovalSteps
  import opened ApprovalAnswers
  import opened ApprovalRuns

  // --- Performing and replying -----------------------------------------------------------------

  /** The thread's own operation, or its reading, has been done. */
  predicate Did(past: seq<Action>, c: Corr) {
    Perform(c, true) in past || Perform(c, false) in past
  }

  predicate HasRead(past: seq<Action>, c: Corr) {
    Read(c, true) in past || Read(c, false) in past
  }

  predicate Succeeded(past: seq<Action>, c: Corr) {
    Perform(c, true) in past || Read(c, true) in past
  }

  ghost predicate Touched(s: State, c: Corr) {
    exists e :: e in s.effects && e.corr == c
  }

  /** How what thread `c` has done so far shows in the state. */
  ghost predicate Traced(s: State, past: seq<Action>, c: Corr) {
    && (Touched(s, c) <==> Did(past, c))
    && (c !in s.threads || BeforeEffect(s.threads[c].pc) ==> !Did(past, c) && !HasRead(past, c))
    && (c in s.threads && s.threads[c].mutating ==> !HasRead(past, c))
    && (c in s.threads && s.threads[c].pc.Replying? ==> (s.threads[c].pc.success <==> Succeeded(past, c)))
    && (forall m | m in s.log && m.WorkerRep? && m.corr == c ::
          && c in s.threads && !BeforeEffect(s.threads[c].pc) && !s.threads[c].pc.Replying?
          && (m.success <==> Succeeded(past, c)))
  }

  lemma PastAppends(past: seq<Action>, a: Action, c: Corr)
    ensures Did(past + [a], c) <==> Did(past, c) || (a.Perform? && a.corr == c)
    ensures HasRead(past + [a], c) <==> HasRead(past, c) || (a.Read? && a.corr == c)
    ensures Succeeded(past + [a], c)
       <==> Succeeded(past, c) || ((a.Perform? || a.Read?) && a.corr == c && a.success)
    ensures Succeeded(past, c) ==> Did(past, c) || HasRead(past, c)
  {
  }

  /** Nothing of what `c` did or sent changed. */
  lemma TracedSame(s: State, t: State, past: seq<Action>, a: Action, c: Corr)
    requires Traced(s, past, c) && !((a.Perform? || a.Read?) && a.corr == c)
    requires c in t.threads ==>
      if c in s.threads then t.threads[c] == s.threads[c] else t.threads[c].pc in {Running, Replying(false)}
    requires c in s.threads ==> c in t.threads
    requires forall e | e in t.effects && e.corr == c :: e in s.effects
    requires forall e | e in s.effects :: e in t.effects
    requires forall m | m in t.log && m.WorkerRep? && m.corr == c :: m in s.log
    ensures Traced(t, past + [a], c)
  {
    hide Did, HasRead, Succeeded;
    PastAppends(past, a, c);
  }

  lemma TracedOther(s: State, past: seq<Action>, a: Action, c: Corr)
    requires Traced(s, past, c) && Act(s, a).Some? && ThreadStep(a) && a.corr != c
    ensures Traced(Act(s, a).value, past + [a], c)
  {
    hide Kept, Describe, FirstFree, FirstFor, Traced;
    TracedSame(s, Act(s, a).value, past, a, c);
  }

  lemma TracedOutside(s: State, past: seq<Action>, a: Action, c: Corr)
    requires Fresh(s) && Traced(s, past, c) && Act(s, a).Some? && !ThreadStep(a)
    ensures Traced(Act(s, a).value, past + [a], c)
  {
    hide Kept, Describe, FirstFree, FirstFor, Traced;
    TracedSame(s, Act(s, a).value, past, a, c);
  }

  /** A step of the thread itself. */
  lemma TracedOwn(s: State, past: seq<Action>, a: Action)
    requires ThreadStep(a) && a.corr in s.threads && Traced(s, past, a.corr) && Act(s, a).Some?
    ensures Traced(Act(s, a).value, past + [a], a.corr)
  {
    hide Kept, Describe, FirstFree, FirstFor, Did, HasRead, Succeeded;
    var t := Act(s, a).value;
    PastAppends(past, a, a.corr);
    if a.Perform? {
      assert t.effects[|t.effects| - 1] in t.effects;
    }
    assert forall e | e in s.effects :: e in t.effects;
  }

  lemma TracedStep(s: State, past: seq<Action>, a: Action, c: Corr)
    requires Fresh(s) && Traced(s, past, c) && Act(s, a).Some?
    ensures Traced(Act(s, a).value, past + [a], c)
  {
    hide Fresh, Traced, Act;
    if ThreadStep(a) && a.corr == c {
      ActsOnThread(s, a);
      TracedOwn(s, past, a);
    } else if ThreadStep(a) {
      TracedOther(s, past, a, c);
    } else {
      TracedOutside(s, past, a, c);
    }
  }

  lemma {:induction false} RunTraced(s: State, past: seq<Action>, actions: seq<Action>, c: Corr)
    requires Inv(s) && Traced(s, past, c) && Run(s, actions).Some?
    ensures Traced(Run(s, actions).value, past + actions, c)
    decreases |actions|
  {
    hide Inv, Traced, Act;
    if actions == [] {
      assert past + [] == past;
    } else {
      assert Fresh(s) by { InvIsFresh(s); }
      StepInv(s, actions[0]);
      TracedStep(s, past, actions[0], c);
      RunTraced(Act(s, actions[0]).value, past + [actions[0]], actions[1..], c);
      assert past + [actions[0]] + actions[1..] == past + actions;
    }
  }

  lemma InvIsFresh(s: State)
    requires Inv(s)
    ensures Fresh(s) && Performed(s)
  {
  }

  lemma TracedFromStart(actions: seq<Action>, c: Corr)
    requires Run(Init, actions).Some?
    ensures Traced(Run(Init, actions).value, actions, c) && Performed(Run(Init, actions).value)
  {
    hide Inv, Run, Performed;
    InitInv();
    RunTraced(Init, [], actions, c);
    assert [] + actions == actions;
    RunInv(Init, actions);
    InvIsFresh(Run(Init, actions).value);
  }

  /** Exactly one file was touched for request `c`: the one it names, in the way it names. */
  ghost predicate CarriedOut(t: State, c: Corr) {
    c in t.threads && exists i ::
      && 0 <= i < |t.effects| && t.effects[i] == Effect(c, t.threads[c].op, t.threads[c].path)
      && forall j | 0 <= j < |t.effects| && j != i :: t.effects[j].corr != c
  }

  /** In every run, a request touches its file, and just once, if its operation was performed, and else none. */
  lemma PerformedExactly(actions: seq<Action>, c: Corr)
    requires Run(Init, actions).Some?
    ensures var t := Run(Init, actions).value;
      if Perform(c, true) in actions || Perform(c, false) in actions then CarriedOut(t, c)
      else forall j | 0 <= j < |t.effects| :: t.effects[j].corr != c
  {
    hide Run;
    TracedFromStart(actions, c);
    TouchedOnce(Run(Init, actions).value, c);
  }

  lemma TouchedOnce(t: State, c: Corr)
    requires Performed(t)
    ensures if Touched(t, c) then CarriedOut(t, c) else forall j | 0 <= j < |t.effects| :: t.effects[j].corr != c
  {
    hide Kept;
    if Touched(t, c) {
      var e :| e in t.effects && e.corr == c;
      var i :| 0 <= i < |t.effects| && t.effects[i] == e;
      assert t.effects[i] == Effect(c, t.threads[c].op, t.threads[c].path);
      forall j | 0 <= j < |t.effects| && j != i ensures t.effects[j].corr != c {
        assert if i < j then t.effects[i].corr != t.effects[j].corr else t.effects[j].corr != t.effects[i].corr;
      }
    } else {
      assert forall j | 0 <= j < |t.effects| :: t.effects[j] in t.effects;
    }
  }

  /**
    * In every run, the reply to a request says success exactly when its operation, or its reading, said so;
    * and success of a request that creates, modifies or deletes means that this was done.
    */
  lemma ReplyIsTrue(actions: seq<Action>, c: Corr, success: bool)
    requires Run(Init, actions).Some? && WorkerRep(c, success) in Run(Init, actions).value.log
    ensures var t := Run(Init, actions).value;
      && c in t.threads
      && (success <==> Perform(c, true) in actions || Read(c, true) in actions)
      && (success && t.threads[c].mutating ==> CarriedOut(t, c))
  {
    hide Run;
    TracedFromStart(actions, c);
    TouchedOnce(Run(Init, actions).value, c);
  }

  // --- From consent to effect ------------------------------------------------------------------

  /**
    * A request that is past its operation was carried out, or timed out, or was never consented to and
    * cannot be any more; one that timed out is not carried out.
    */
  ghost predicate Outcome(s: State, c: Corr, timedOut: bool) {
    && (c in s.threads && s.threads[c].mutating && !BeforeEffect(s.threads[c].pc) ==>
          Touched(s, c) || timedOut || (Unasked(s, c) && !Consented(s, c)))
    && (timedOut || (c in s.threads && BeforeEffect(s.threads[c].pc)) || c !in s.threads ==> !Touched(s, c))
  }

  lemma OutcomeOwn(s: State, a: Action, timedOut: bool)
    requires ThreadStep(a) && !a.Perform? && Act(s, a).Some? && a.corr in s.threads && Placed(s, a.corr)
    requires Story(s, a.corr, timedOut) && Outcome(s, a.corr, timedOut)
    ensures Outcome(Act(s, a).value, a.corr, timedOut || a == Timeout(a.corr))
  {
    hide Describe, Kept, FirstFree, FirstFor, Touched;
    var t := Act(s, a).value;
    assert Consented(t, a.corr) == Consented(s, a.corr);
    assert Touched(t, a.corr) == Touched(s, a.corr) by { SameEffects(s, t, a.corr); }
    if !a.Ask? {
      assert Unasked(s, a.corr) ==> Unasked(t, a.corr);
    }
  }

  lemma SameEffects(s: State, t: State, c: Corr)
    requires t.effects == s.effects
    ensures Touched(t, c) == Touched(s, c)
  {
  }

  lemma OutcomePerforms(s: State, a: Action, timedOut: bool)
    requires a.Perform? && Act(s, a).Some? && Story(s, a.corr, timedOut)
    ensures Outcome(Act(s, a).value, a.corr, timedOut)
  {
    hide Describe, Kept, Unasked, Consented;
    var t := Act(s, a).value;
    assert t.effects[|t.effects| - 1] in t.effects;
  }

  lemma OutcomeOther(s: State, a: Action, c: Corr, timedOut: bool)
    requires ThreadStep(a) && Act(s, a).Some? && a.corr != c && Outcome(s, c, timedOut)
    ensures Outcome(Act(s, a).value, c, timedOut)
  {
    hide Describe, FirstFree, Kept;
    var t := Act(s, a).value;
    assert c in t.threads <==> c in s.threads;
    assert c in t.threads ==> t.threads[c] == s.threads[c];
    assert Consented(t, c) == Consented(s, c);
    assert forall e | e in t.effects && e.corr == c :: e in s.effects;
    assert forall e | e in s.effects :: e in t.effects;
  }

  lemma OutcomeOutside(s: State, a: Action, c: Corr, timedOut: bool)
    requires Fresh(s) && Faithful(s) && Single(s) && Act(s, a).Some? && Outcome(s, c, timedOut) && !ThreadStep(a)
    ensures Outcome(Act(s, a).value, c, timedOut)
  {
    hide Kept;
    var t := Act(s, a).value;
    assert t.effects == s.effects;
  }

  lemma OutcomeStep(s: State, a: Action, c: Corr, timedOut: bool)
    requires Inv(s) && Orderly(s) && Act(s, a).Some? && Story(s, c, timedOut) && Outcome(s, c, timedOut)
    ensures Outcome(Act(s, a).value, c, timedOut || a == Timeout(c))
  {
    hide Owned, Fresh, Faithful, Backed, Performed, Replied, Single, Story, Outcome, Act;
    if ThreadStep(a) && a.corr == c {
      assert c in s.threads by { ActsOnThread(s, a); }
      if a.Perform? {
        OutcomePerforms(s, a, timedOut);
      } else {
        OutcomeOwn(s, a, timedOut);
      }
    } else if ThreadStep(a) {
      OutcomeOther(s, a, c, timedOut);
    } else {
      OutcomeOutside(s, a, c, timedOut);
    }
  }

  lemma {:induction false} RunOutcome(s: State, actions: seq<Action>, c: Corr, timedOut: bool)
    requires Inv(s) && Orderly(s) && Story(s, c, timedOut) && Outcome(s, c, timedOut) && Run(s, actions).Some?
    ensures Outcome(Run(s, actions).value, c, timedOut || Timeout(c) in actions)
    decreases |actions|
  {
    hide Inv, Orderly, Story, Outcome, Act;
    if actions != [] {
      StepInv(s, actions[0]);
      StepOrderly(s, actions[0]);
      StoryStep(s, actions[0], c, timedOut);
      OutcomeStep(s, actions[0], c, timedOut);
      RunOutcome(Act(s, actions[0]).value, actions[1..], c, timedOut || actions[0] == Timeout(c));
      assert Timeout(c) in actions <==> actions[0] == Timeout(c) || Timeout(c) in actions[1..];
    }
  }

  /**
    * In every run, when the thread of a request that creates, modifies or deletes a file has come to its
    * reply, and the user has consented, the operation was carried out if and only if the wait did not
    * time out.
    */
  lemma CarriedOutUnlessTimedOut(actions: seq<Action>, c: Corr)
    requires Run(Init, actions).Some? && c in Run(Init, actions).value.threads
    requires var th := Run(Init, actions).value.threads[c];
      th.mutating && (th.pc.Replying? || th.pc.RepSent? || th.pc.Done?)
    requires Consented(Run(Init, actions).value, c)
    ensures CarriedOut(Run(Init, actions).value, c) <==> Timeout(c) !in actions
  {
    hide Inv, Orderly, Performed, Consented, Unasked, Run;
    InitInv();
    InitOrderly();
    RunOutcome(Init, actions, c, false);
    RunInv(Init, actions);
    var t := Run(Init, actions).value;
    InvIsFresh(t);
    TouchedOnce(t, c);
  }

  // --- An instance -----------------------------------------------------------------------------

  function ConsentActions(path: bytes): seq<Action> {
    [PressKey(true), LoopReceive(CreateFile, path, true), NotifyWrite, Wake(1), Release(1)]
  }

  const FINISH: seq<Action> := [Perform(1, true), SendRep(1), SendEnd(1)]

  /** A file the user allowed is created, and the TUI is told: the run from the request to its end. */
  lemma ApprovedIsCarriedOut(path: bytes)
    ensures var run := Run(Init, AskActions(path) + (ConsentActions(path) + FINISH));
      && run.Some?
      && run.value.effects == [Effect(1, CreateFile, path)]
      && run.value.log == [ApprovalReq(1, Describe(CreateFile, path)), WorkerRep(1, true), WorkerEnd(1)]
  {
    hide Describe, Kept, Act;
    var s := Asked(path);
    var t := Consents(s, path);
    var u := Finishes(t);
    RunAppends(Init, AskActions(path), ConsentActions(path) + FINISH);
    RunAppends(s, ConsentActions(path), FINISH);
    assert u.log == [ApprovalReq(1, Describe(CreateFile, path)), WorkerRep(1, true), WorkerEnd(1)];
  }

  lemma Consents(s: State, path: bytes) returns (t: State)
    requires OnScreenOf(s, path)
    ensures Run(s, ConsentActions(path)) == Some(t)
    ensures t.threads == map[1 := Thread(CreateFile, path, Answered(true))]
    ensures t.effects == s.effects && t.log == s.log
  {
    hide Describe, Kept, FirstFree;
    var s1 := Act(s, PressKey(true)).value;
    var s2 := Act(s1, LoopReceive(CreateFile, path, true)).value;
    var s3 := Act(s2, NotifyWrite).value;
    var s4 := Act(s3, Wake(1)).value;
    t := Act(s4, Release(1)).value;
    FiveActions(
      s, PressKey(true), LoopReceive(CreateFile, path, true), NotifyWrite, Wake(1), Release(1), s1, s2, s3, s4);
  }

  lemma Finishes(s: State) returns (t: State)
    requires s.threads.Keys == {1} && s.threads[1].pc == Answered(true)
    ensures Run(s, FINISH) == Some(t)
    ensures t.effects == s.effects + [Effect(1, s.threads[1].op, s.threads[1].path)]
    ensures t.log == s.log + [WorkerRep(1, true)] + [WorkerEnd(1)]
  {
    var s1 := Act(s, Perform(1, true)).value;
    var s2 := Act(s1, SendRep(1)).value;
    t := Act(s2, SendEnd(1)).value;
    assert FINISH[1..] == [SendRep(1), SendEnd(1)];
    assert [SendRep(1), SendEnd(1)][1..] == [SendEnd(1)];
    assert [SendEnd(1)][1..] == [];
    assert Run(s2, [SendEnd(1)]) == Some(t);
    assert Run(s1, [SendRep(1), SendEnd(1)]) == Some(t);
  }
}
