/**
  * Many requests at once: threads that draw sub-query ids from one counter and send on one socket.
  * Whatever the interleaving, the messages of each request, in the order they were sent, are a whole
  * conversation of that request.
  */
module RequestRuns {
  import opened Bytes
  import opened AgentLoop
  import opened ChatHistory

  // --- Conversations -----------------------------------------------------------------------

  /** START and END of each sub-query, with these ids in this order. */
  predicate Pairs(es: seq<Event>, c: Corr, subs: seq<Corr>) {
    && 2 * |subs| <= |es|
    && forall k | 0 <= k < |subs| :: PairAt(es, c, k, subs[k])
  }

  predicate PairAt(es: seq<Event>, c: Corr, k: nat, sub: Corr) {
    && 2 * k + 1 < |es|
    && es[2 * k].WorkerStart? && es[2 * k].sub == sub && es[2 * k].parent == c
    && es[2 * k + 1] == WorkerEnd(sub)
  }

  /**
    * What one request sends: the sub-queries, each ended before the next begins, then one REP_FINAL,
    * then perhaps a rename; or one REP_ERROR and nothing else.
    */
  predicate IsConversation(es: seq<Event>, c: Corr, subs: seq<Corr>) {
    var n := 2 * |subs|;
    || (subs == [] && |es| == 1 && es[0].RepError? && es[0].corr == c)
    || (&& n < |es| <= n + 2
        && Pairs(es, c, subs)
        && es[n].RepFinal? && es[n].corr == c
        && (|es| == n + 2 ==> es[n + 1].SessionRename? && es[n + 1].corr == c))
  }

  lemma PairsAppend(a: seq<Event>, b: seq<Event>, c: Corr, subs: seq<Corr>, more: seq<Corr>)
    requires Pairs(a, c, subs) && |a| == 2 * |subs| && Pairs(b, c, more)
    ensures Pairs(a + b, c, subs + more)
  {
    var es, all := a + b, subs + more;
    forall k | 0 <= k < |all| ensures PairAt(es, c, k, all[k]) {
      if k < |subs| {
        assert PairAt(a, c, k, subs[k]);
      } else {
        assert PairAt(b, c, k - |subs|, more[k - |subs|]);
        assert es[2 * k] == b[2 * (k - |subs|)] && es[2 * k + 1] == b[2 * (k - |subs|) + 1];
      }
    }
  }

  lemma NoPairs(c: Corr)
    ensures Pairs([], c, [])
  {
  }

  lemma LastPair(calls: seq<ToolCall>, subs: seq<Corr>, c: Corr) returns (last: seq<Event>)
    requires |subs| == SubCount(calls) && calls != [] && StartsSub(calls[|calls| - 1])
    ensures subs != [] && |last| == 2 && Pairs(last, c, [subs[|subs| - 1]])
    ensures SubEvents(calls, subs, c) == SubEvents(calls[..|calls| - 1], subs[..|subs| - 1], c) + last
  {
    var (model, prompt) := AskAiArgs(calls[|calls| - 1].arguments).value;
    var sub := subs[|subs| - 1];
    last := [WorkerStart(sub, c, model, Upto(prompt, 40)), WorkerEnd(sub)];
    assert PairAt(last, c, 0, sub);
  }

  lemma {:induction false} SubEventsPair(calls: seq<ToolCall>, subs: seq<Corr>, c: Corr)
    requires |subs| == SubCount(calls)
    ensures |SubEvents(calls, subs, c)| == 2 * |subs| && Pairs(SubEvents(calls, subs, c), c, subs)
    decreases |calls|
  {
    hide StartsSub, AskAiArgs, Pairs;
    if calls != [] {
      var k := |calls| - 1;
      if StartsSub(calls[k]) {
        var m := |subs| - 1;
        SubEventsPair(calls[..k], subs[..m], c);
        var last := LastPair(calls, subs, c);
        PairsAppend(SubEvents(calls[..k], subs[..m], c), last, c, subs[..m], [subs[m]]);
        assert subs == subs[..m] + [subs[m]];
      } else {
        SubEventsPair(calls[..k], subs, c);
      }
    } else {
      NoPairs(c);
    }
  }

  lemma {:induction false} RoundEventsPair(rounds: seq<Round>, c: Corr)
    requires SubsFit(rounds)
    ensures |RoundEvents(rounds, c)| == 2 * |AllSubs(rounds)| && Pairs(RoundEvents(rounds, c), c, AllSubs(rounds))
    decreases |rounds|
  {
    if rounds != [] {
      var k := |rounds| - 1;
      RoundEventsPair(rounds[..k], c);
      var calls, subs := CallsOf(rounds[k].reply), rounds[k].subs;
      SubEventsPair(calls, subs, c);
      PairsAppend(RoundEvents(rounds[..k], c), SubEvents(calls, subs, c), c, AllSubs(rounds[..k]), subs);
    }
  }

  /** What HandleRequest sends is a conversation. */
  lemma RequestConverses(ra: Request, rounds: seq<Round>, name: bytes, rename: seq<Event>)
    requires SubsFit(rounds) && RenameFits(rename, ra, name)
    ensures IsConversation(Replies(ra, rounds) + rename, ra.corr, AllSubs(rounds))
  {
    hide AllSubs, RoundEvents, SubsFit;
    RoundEventsPair(rounds, ra.corr);
    var tail := [RepFinal(ra.corr, ra.session, AnswerText(rounds), AnswerReasoning(rounds))] + rename;
    PairsAppend(RoundEvents(rounds, ra.corr), tail, ra.corr, AllSubs(rounds), []);
    assert AllSubs(rounds) + [] == AllSubs(rounds);
    assert Replies(ra, rounds) + rename == RoundEvents(rounds, ra.corr) + tail;
  }

  // --- Scripts: conversations whose ids are not drawn yet ----------------------------------

  datatype Step =
    | Draw
    | Start(model: bytes, description: bytes)
    | End
    | Final(session: nat, content: bytes, reasoning: Option<bytes>)
    | Fail(error: bytes)
    | Rename(session: nat, topic: bytes)

  function Draws(steps: seq<Step>): nat {
    if steps == [] then 0 else (if steps[0].Draw? then 1 else 0) + Draws(steps[1..])
  }

  function Emitted(step: Step, c: Corr, sub: Corr): seq<Event> {
    match step
    case Draw => []
    case Start(model, description) => [WorkerStart(sub, c, model, description)]
    case End => [WorkerEnd(sub)]
    case Final(session, content, reasoning) => [RepFinal(c, session, content, reasoning)]
    case Fail(error) => [RepError(c, error)]
    case Rename(session, topic) => [SessionRename(c, session, topic)]
  }

  /** What the steps send once they draw these ids; `sub` is the last one drawn before. */
  function Play(steps: seq<Step>, c: Corr, sub: Corr, ids: seq<Corr>): seq<Event>
    requires |ids| == Draws(steps)
  {
    if steps == [] then []
    else if steps[0].Draw? then Play(steps[1..], c, ids[0], ids[1..])
    else Emitted(steps[0], c, sub) + Play(steps[1..], c, sub, ids)
  }

  /** A script is a conversation whichever ids it draws. */
  ghost predicate IsScript(steps: seq<Step>, c: Corr) {
    forall ids | |ids| == Draws(steps) :: IsConversation(Play(steps, c, 0, ids), c, ids)
  }

  function ScriptOf(es: seq<Event>): seq<Step> {
    if es == [] then []
    else (match es[0]
          case WorkerStart(_, _, model, description) => [Draw, Start(model, description)]
          case WorkerEnd(_) => [End]
          case RepFinal(_, session, content, reasoning) => [Final(session, content, reasoning)]
          case RepError(_, error) => [Fail(error)]
          case SessionRename(_, session, topic) => [Rename(session, topic)]) + ScriptOf(es[1..])
  }

  /** One more sub-query in front. */
  lemma PairInFront(a: Event, b: Event, es: seq<Event>, c: Corr, sub: Corr, subs: seq<Corr>)
    requires a.WorkerStart? && a.sub == sub && a.parent == c && b == WorkerEnd(sub)
    requires IsConversation(es, c, subs) && !es[0].RepError?
    ensures IsConversation([a, b] + es, c, [sub] + subs)
  {
    assert PairAt([a, b], c, 0, sub);
    PairsAppend([a, b], es, c, [sub], subs);
  }

  lemma PairBehind(es: seq<Event>, c: Corr, subs: seq<Corr>)
    requires IsConversation(es, c, subs) && subs != []
    ensures |es| > 2 && es[0].WorkerStart? && es[0].sub == subs[0] && es[0].parent == c && es[1] == WorkerEnd(subs[0])
    ensures IsConversation(es[2..], c, subs[1..]) && !es[2].RepError?
  {
    assert PairAt(es, c, 0, subs[0]);
    var rest, more := es[2..], subs[1..];
    forall k | 0 <= k < |more| ensures PairAt(rest, c, k, more[k]) {
      assert PairAt(es, c, k + 1, subs[k + 1]);
      assert rest[2 * k] == es[2 * (k + 1)] && rest[2 * k + 1] == es[2 * (k + 1) + 1];
    }
    assert more != [] ==> PairAt(rest, c, 0, more[0]);
  }

  /** Every conversation is played by a script, and the script is one whichever ids it draws. */
  lemma {:induction false} ScriptPlays(es: seq<Event>, c: Corr, subs: seq<Corr>, sub: Corr, ids: seq<Corr>)
    requires IsConversation(es, c, subs) && |ids| == |subs|
    ensures Draws(ScriptOf(es)) == |subs|
    ensures IsConversation(Play(ScriptOf(es), c, sub, ids), c, ids)
    ensures es[0].RepError? <==> Play(ScriptOf(es), c, sub, ids)[0].RepError?
    ensures ids == subs ==> Play(ScriptOf(es), c, sub, ids) == es
    decreases |subs|
  {
    hide IsConversation, Play, ScriptOf, Draws;
    if subs == [] {
      PlainScript(es, c, sub);
    } else {
      PairBehind(es, c, subs);
      ScriptPlays(es[2..], c, subs[1..], ids[0], ids[1..]);
      var rest := ScriptOf(es[2..]);
      PairScript(es, rest, c, sub, ids);
      PairInFront(WorkerStart(ids[0], c, es[0].model, es[0].description), WorkerEnd(ids[0]),
                  Play(rest, c, ids[0], ids[1..]), c, ids[0], ids[1..]);
      assert [ids[0]] + ids[1..] == ids;
      assert [es[0], es[1]] + es[2..] == es;
    }
  }

  lemma PlainScript(es: seq<Event>, c: Corr, sub: Corr)
    requires IsConversation(es, c, [])
    ensures Draws(ScriptOf(es)) == 0 && Play(ScriptOf(es), c, sub, []) == es
  {
    if |es| == 1 {
      OneStep(es[0], c, sub);
      assert es == [es[0]];
    } else {
      OneStep(es[1], c, sub);
      var first, second := Final(es[0].session, es[0].content, es[0].reasoning), Rename(es[1].session, es[1].topic);
      assert es[1..] == [es[1]];
      assert ScriptOf(es) == [first] + [second] == [first, second];
      assert [first, second][1..] == [second];
      assert Play([first, second], c, sub, []) == [es[0]] + [es[1]] == es;
    }
  }

  lemma OneStep(e: Event, c: Corr, sub: Corr)
    requires (e.RepError? || e.RepFinal? || e.SessionRename?) && e.corr == c
    ensures Draws(ScriptOf([e])) == 0 && Play(ScriptOf([e]), c, sub, []) == [e]
    ensures e.SessionRename? ==> ScriptOf([e]) == [Rename(e.session, e.topic)]
  {
    assert [e][1..] == [];
    assert |ScriptOf([e])| == 1 && ScriptOf([e])[1..] == [];
  }

  lemma PairScript(es: seq<Event>, rest: seq<Step>, c: Corr, sub: Corr, ids: seq<Corr>)
    requires |es| > 2 && es[0].WorkerStart? && es[1].WorkerEnd? && rest == ScriptOf(es[2..])
    requires |ids| == Draws(rest) + 1
    ensures Draws(ScriptOf(es)) == Draws(rest) + 1
    ensures Play(ScriptOf(es), c, sub, ids)
         == [WorkerStart(ids[0], c, es[0].model, es[0].description), WorkerEnd(ids[0])]
            + Play(rest, c, ids[0], ids[1..])
  {
    assert es[1..][1..] == es[2..];
    var start := Start(es[0].model, es[0].description);
    assert ScriptOf(es[1..]) == [End] + rest;
    assert ScriptOf(es) == [Draw, start] + ([End] + rest);
    var s := [Draw, start] + ([End] + rest);
    assert s[1..] == [start] + ([End] + rest);
    assert s[1..][1..] == [End] + rest;
    assert ([End] + rest)[1..] == rest;
    assert Play([End] + rest, c, ids[0], ids[1..]) == [WorkerEnd(ids[0])] + Play(rest, c, ids[0], ids[1..]);
  }

  // --- Interleavings -----------------------------------------------------------------------

  /** What a request thread still has to do, and the ids it has drawn. */
  datatype Thread = Thread(rest: seq<Step>, subs: seq<Corr>)

  /** `next` is sub_corr_next; `log` is everything sent, in order. */
  datatype State = State(next: Corr, threads: map<Corr, Thread>, log: seq<Event>)

  datatype Action =
    | Accept(corr: Corr, script: seq<Step>)   // MSG_REQ_SEND decoded, thread started
    | Advance(corr: Corr)                     // the thread's next step

  const FIRST_SUB: Corr := 0x8000_0000_0000_0000

  const Init := State(FIRST_SUB, map[], [])

  function Current(th: Thread): Corr {
    if th.subs == [] then 0 else th.subs[|th.subs| - 1]
  }

  /** The state after an action; None when it is not enabled. Request ids are not reused. */
  ghost function Act(s: State, a: Action): Option<State> {
    match a
    case Accept(c, script) =>
      if c in s.threads || !IsScript(script, c) then None
      else Some(s.(threads := s.threads[c := Thread(script, [])]))
    case Advance(c) =>
      if c !in s.threads || s.threads[c].rest == [] then None
      else
        var th := s.threads[c];
        if th.rest[0].Draw? then
          Some(s.(next := s.next + 1, threads := s.threads[c := Thread(th.rest[1..], th.subs + [s.next])]))
        else
          Some(s.(threads := s.threads[c := Thread(th.rest[1..], th.subs)],
                  log := s.log + Emitted(th.rest[0], c, Current(th))))
  }

  ghost function Run(s: State, actions: seq<Action>): Option<State>
    decreases |actions|
  {
    if actions == [] then Some(s)
    else
      var t := Act(s, actions[0]);
      if t.None? then None else Run(t.value, actions[1..])
  }

  /** The message names request `c`, or one of its sub-queries. */
  predicate Concerns(e: Event, c: Corr, subs: seq<Corr>) {
    match e
    case WorkerStart(_, parent, _, _) => parent == c
    case WorkerEnd(sub) => sub in subs
    case RepFinal(corr, _, _, _) => corr == c
    case RepError(corr, _) => corr == c
    case SessionRename(corr, _, _) => corr == c
  }

  /** The messages of one request, in the order they were sent. */
  function Mine(log: seq<Event>, c: Corr, subs: seq<Corr>): seq<Event> {
    if log == [] then []
    else
      var k := |log| - 1;
      Mine(log[..k], c, subs) + (if Concerns(log[k], c, subs) then [log[k]] else [])
  }

  lemma MineAppend(log: seq<Event>, e: Event, c: Corr, subs: seq<Corr>)
    ensures Mine(log + [e], c, subs) == Mine(log, c, subs) + (if Concerns(e, c, subs) then [e] else [])
  {
    assert (log + [e])[..|log|] == log;
  }

  lemma {:induction false} MineUnchanged(log: seq<Event>, c: Corr, subs: seq<Corr>, x: Corr)
    requires WorkerEnd(x) !in log
    ensures Mine(log, c, subs + [x]) == Mine(log, c, subs)
  {
    if log != [] {
      MineUnchanged(log[..|log| - 1], c, subs, x);
      assert log[|log| - 1] in log;
    }
  }

  lemma {:induction false} NothingMine(log: seq<Event>, c: Corr)
    requires forall e | e in log :: !Concerns(e, c, [])
    ensures Mine(log, c, []) == []
  {
    if log != [] {
      NothingMine(log[..|log| - 1], c);
      assert log[|log| - 1] in log;
    }
  }

  /** Ids come from the counter, and no two requests share one. */
  ghost predicate Drawn(s: State) {
    && FIRST_SUB <= s.next
    && (forall c | c in s.threads :: Ascending(s.threads[c].subs, FIRST_SUB, s.next))
    && (forall c, d, x | c in s.threads && d in s.threads && c != d && x in s.threads[c].subs ::
          x !in s.threads[d].subs)
  }

  /** Every message names an accepted request or an id drawn before. */
  ghost predicate Logged(s: State) {
    forall e | e in s.log ::
      match e
      case WorkerStart(_, parent, _, _) => parent in s.threads
      case WorkerEnd(sub) => FIRST_SUB <= sub < s.next
      case RepFinal(corr, _, _, _) => corr in s.threads
      case RepError(corr, _) => corr in s.threads
      case SessionRename(corr, _, _) => corr in s.threads
  }

  /** What request `c` has sent and what it will send make a conversation, whichever ids are to come. */
  ghost predicate OnTrack(s: State, c: Corr)
    requires c in s.threads
  {
    var th := s.threads[c];
    forall ids | |ids| == Draws(th.rest) ::
      IsConversation(Mine(s.log, c, th.subs) + Play(th.rest, c, Current(th), ids), c, th.subs + ids)
  }

  ghost predicate Inv(s: State) {
    Drawn(s) && Logged(s) && forall c | c in s.threads :: OnTrack(s, c)
  }

  lemma InitInv()
    ensures Inv(Init)
  {
  }

  /** Nothing changed for thread `d`. */
  lemma StillOnTrack(s: State, t: State, d: Corr)
    requires d in s.threads && d in t.threads && t.threads[d] == s.threads[d] && OnTrack(s, d)
    requires Mine(t.log, d, s.threads[d].subs) == Mine(s.log, d, s.threads[d].subs)
    ensures OnTrack(t, d)
  {
    hide IsConversation, Play;
  }

  lemma AcceptOnTrack(s: State, c: Corr, script: seq<Step>)
    requires Logged(s) && Act(s, Accept(c, script)).Some?
    ensures OnTrack(Act(s, Accept(c, script)).value, c)
  {
    hide IsConversation, Play;
    var t := Act(s, Accept(c, script)).value;
    NothingMine(s.log, c);
    forall ids | |ids| == Draws(script)
      ensures IsConversation(Mine(t.log, c, []) + Play(script, c, 0, ids), c, [] + ids)
    {
      assert [] + Play(script, c, 0, ids) == Play(script, c, 0, ids) && [] + ids == ids;
      assert IsConversation(Play(script, c, 0, ids), c, ids);
    }
  }

  lemma AcceptInv(s: State, c: Corr, script: seq<Step>)
    requires Inv(s) && Act(s, Accept(c, script)).Some?
    ensures Inv(Act(s, Accept(c, script)).value)
  {
    hide IsScript, OnTrack, Mine;
    var t := Act(s, Accept(c, script)).value;
    forall d | d in t.threads ensures OnTrack(t, d) {
      if d == c {
        AcceptOnTrack(s, c, script);
      } else {
        StillOnTrack(s, t, d);
      }
    }
    assert Ascending([], FIRST_SUB, s.next) by { LowerBound(s); }
  }

  lemma LowerBound(s: State)
    requires Inv(s)
    ensures FIRST_SUB <= s.next
  {
  }

  lemma DrawOnTrack(s: State, c: Corr)
    requires Logged(s) && Act(s, Advance(c)).Some? && s.threads[c].rest[0].Draw? && OnTrack(s, c)
    ensures OnTrack(Act(s, Advance(c)).value, c)
  {
    hide IsConversation;
    var t := Act(s, Advance(c)).value;
    var th := s.threads[c];
    MineUnchanged(s.log, c, th.subs, s.next);
    forall ids | |ids| == Draws(t.threads[c].rest)
      ensures IsConversation(Mine(t.log, c, t.threads[c].subs) + Play(t.threads[c].rest, c, s.next, ids), c,
                             t.threads[c].subs + ids)
    {
      var all := [s.next] + ids;
      assert all[1..] == ids;
      assert Play(th.rest, c, Current(th), all) == Play(t.threads[c].rest, c, s.next, ids);
      assert th.subs + all == t.threads[c].subs + ids;
    }
  }

  lemma DrawDrawn(s: State, c: Corr)
    requires Drawn(s) && Act(s, Advance(c)).Some? && s.threads[c].rest[0].Draw?
    ensures Drawn(Act(s, Advance(c)).value)
  {
    var t := Act(s, Advance(c)).value;
    forall d, e, x | d in t.threads && e in t.threads && d != e && x in t.threads[d].subs
      ensures x !in t.threads[e].subs
    {
      assert x in s.threads[d].subs || x == s.next;
    }
  }

  lemma DrawInv(s: State, c: Corr)
    requires Inv(s) && Act(s, Advance(c)).Some? && s.threads[c].rest[0].Draw?
    ensures Inv(Act(s, Advance(c)).value)
  {
    hide Drawn, OnTrack, Mine;
    var t := Act(s, Advance(c)).value;
    DrawDrawn(s, c);
    forall d | d in t.threads ensures OnTrack(t, d) {
      if d == c {
        DrawOnTrack(s, c);
      } else {
        StillOnTrack(s, t, d);
      }
    }
  }

  /** A thread ends only a sub-query it has begun. */
  lemma EndHasId(s: State, c: Corr)
    requires c in s.threads && OnTrack(s, c) && s.threads[c].rest != [] && s.threads[c].rest[0].End?
    ensures s.threads[c].subs != []
  {
    hide Play, IsConversation;
    var th := s.threads[c];
    if th.subs == [] {
      var ids := seq(Draws(th.rest), _ => 1);
      var mine := Mine(s.log, c, []);
      var es := mine + Play(th.rest, c, 0, ids);
      assert [] + ids == ids;
      assert IsConversation(es, c, ids);
      assert es[|mine|] == WorkerEnd(0) && |mine| < |es| by { EndFirst(th.rest, c, ids); }
      EndIsDrawn(es, c, ids, |mine|);
    }
  }

  lemma EndFirst(rest: seq<Step>, c: Corr, ids: seq<Corr>)
    requires rest != [] && rest[0].End? && |ids| == Draws(rest)
    ensures Play(rest, c, 0, ids) != [] && Play(rest, c, 0, ids)[0] == WorkerEnd(0)
  {
  }

  lemma EndIsDrawn(es: seq<Event>, c: Corr, ids: seq<Corr>, i: nat)
    requires IsConversation(es, c, ids) && i < |es| && es[i].WorkerEnd?
    ensures es[i].sub in ids
  {
    assert i < 2 * |ids|;
    assert PairAt(es, c, i / 2, ids[i / 2]);
  }

  lemma OneEvent(step: Step, c: Corr, sub: Corr)
    requires !step.Draw?
    ensures |Emitted(step, c, sub)| == 1 && Emitted(step, c, sub) == [Emitted(step, c, sub)[0]]
  {
  }

  lemma PlayOne(steps: seq<Step>, c: Corr, sub: Corr, ids: seq<Corr>)
    requires steps != [] && !steps[0].Draw? && |ids| == Draws(steps)
    ensures Draws(steps[1..]) == |ids|
    ensures Play(steps, c, sub, ids) == Emitted(steps[0], c, sub) + Play(steps[1..], c, sub, ids)
  {
  }

  lemma SendOnTrack(s: State, c: Corr)
    requires Act(s, Advance(c)).Some? && !s.threads[c].rest[0].Draw? && OnTrack(s, c)
    requires Concerns(Emitted(s.threads[c].rest[0], c, Current(s.threads[c]))[0], c, s.threads[c].subs)
    ensures OnTrack(Act(s, Advance(c)).value, c)
  {
    hide IsConversation, Concerns, Play, Mine, Emitted;
    var t := Act(s, Advance(c)).value;
    var th := s.threads[c];
    OneEvent(th.rest[0], c, Current(th));
    var e := Emitted(th.rest[0], c, Current(th))[0];
    MineAppend(s.log, e, c, th.subs);
    forall ids | |ids| == Draws(t.threads[c].rest)
      ensures IsConversation(Mine(t.log, c, th.subs) + Play(t.threads[c].rest, c, Current(th), ids), c, th.subs + ids)
    {
      PlayOne(th.rest, c, Current(th), ids);
      Assoc(Mine(s.log, c, th.subs), [e], Play(t.threads[c].rest, c, Current(th), ids));
    }
  }

  lemma SendInv(s: State, c: Corr)
    requires Inv(s) && Act(s, Advance(c)).Some? && !s.threads[c].rest[0].Draw?
    ensures Inv(Act(s, Advance(c)).value)
  {
    hide OnTrack, Mine, IsConversation, Play;
    var t := Act(s, Advance(c)).value;
    var th := s.threads[c];
    if th.rest[0].End? {
      EndHasId(s, c);
    }
    var e := Emitted(th.rest[0], c, Current(th))[0];
    assert t.log == s.log + [e];
    assert Concerns(e, c, th.subs);
    forall d | d in t.threads ensures OnTrack(t, d) {
      if d == c {
        SendOnTrack(s, c);
      } else {
        MineAppend(s.log, e, d, s.threads[d].subs);
        assert Mine(s.log, d, s.threads[d].subs) + [] == Mine(s.log, d, s.threads[d].subs);
        StillOnTrack(s, t, d);
      }
    }
  }

  lemma {:induction false} RunInv(s: State, actions: seq<Action>)
    requires Inv(s) && Run(s, actions).Some?
    ensures Inv(Run(s, actions).value)
    decreases |actions|
  {
    hide Inv, Act;
    if actions != [] {
      StepInv(s, actions[0]);
      RunInv(Act(s, actions[0]).value, actions[1..]);
    }
  }

  lemma AdvanceInv(s: State, c: Corr)
    requires Inv(s) && Act(s, Advance(c)).Some?
    ensures Inv(Act(s, Advance(c)).value)
  {
    hide Inv;
    if s.threads[c].rest[0].Draw? {
      DrawInv(s, c);
    } else {
      SendInv(s, c);
    }
  }

  /**
    * In every run, the messages of a finished request are, in the order they were sent, one whole
    * conversation with the ids it drew.
    */
  lemma WholeConversation(actions: seq<Action>, c: Corr)
    requires Run(Init, actions).Some?
    requires c in Run(Init, actions).value.threads && Run(Init, actions).value.threads[c].rest == []
    ensures var t := Run(Init, actions).value;
      IsConversation(Mine(t.log, c, t.threads[c].subs), c, t.threads[c].subs)
  {
    hide IsConversation;
    InitInv();
    RunInv(Init, actions);
    var t := Run(Init, actions).value;
    assert OnTrack(t, c);
    var mine := Mine(t.log, c, t.threads[c].subs);
    assert mine + Play([], c, Current(t.threads[c]), []) == mine;
    assert t.threads[c].subs + [] == t.threads[c].subs;
  }

  /** In every run, sub-query ids are distinct, also those of different requests, and above the TUI's own. */
  lemma SubIdsAreDistinct(actions: seq<Action>, c: Corr, d: Corr, i: nat, j: nat)
    requires Run(Init, actions).Some?
    requires c in Run(Init, actions).value.threads && d in Run(Init, actions).value.threads
    requires i < |Run(Init, actions).value.threads[c].subs| && j < |Run(Init, actions).value.threads[d].subs|
    ensures var t := Run(Init, actions).value;
      && t.threads[c].subs[i] >= FIRST_SUB
      && (t.threads[c].subs[i] == t.threads[d].subs[j] ==> c == d && i == j)
  {
    hide OnTrack;
    InitInv();
    RunInv(Init, actions);
    var t := Run(Init, actions).value;
    assert t.threads[c].subs[i] in t.threads[c].subs && t.threads[d].subs[j] in t.threads[d].subs;
    assert Ascending(t.threads[c].subs, FIRST_SUB, t.next);
  }

  predicate Terminal(e: Event, c: Corr) {
    (e.RepFinal? || e.RepError?) && e.corr == c
  }

  /** The final and error replies with an id. */
  function Terminals(log: seq<Event>, c: Corr): seq<Event> {
    if log == [] then []
    else Terminals(log[..|log| - 1], c) + (if Terminal(log[|log| - 1], c) then [log[|log| - 1]] else [])
  }

  lemma {:induction false} TerminalsAreMine(log: seq<Event>, c: Corr, subs: seq<Corr>)
    ensures Terminals(Mine(log, c, subs), c) == Terminals(log, c)
  {
    if log != [] {
      var k := |log| - 1;
      TerminalsAreMine(log[..k], c, subs);
      var mine := Mine(log[..k], c, subs);
      assert (mine + [log[k]])[..|mine|] == mine;
      assert mine + [] == mine;
    }
  }

  lemma {:induction false} TerminalsOfConversation(es: seq<Event>, c: Corr, subs: seq<Corr>, n: nat)
    requires IsConversation(es, c, subs) && n <= |es|
    ensures |Terminals(es[..n], c)| == if n <= 2 * |subs| then 0 else 1
  {
    if n > 0 {
      TerminalsOfConversation(es, c, subs, n - 1);
      assert es[..n][..n - 1] == es[..n - 1];
      if n <= 2 * |subs| {
        assert PairAt(es, c, (n - 1) / 2, subs[(n - 1) / 2]);
      }
    }
  }

  /** In every run, a finished request has got exactly one REP_FINAL or REP_ERROR. */
  lemma OneTerminalReply(actions: seq<Action>, c: Corr)
    requires Run(Init, actions).Some?
    requires c in Run(Init, actions).value.threads && Run(Init, actions).value.threads[c].rest == []
    ensures |Terminals(Run(Init, actions).value.log, c)| == 1
  {
    hide IsConversation;
    var t := Run(Init, actions).value;
    var subs := t.threads[c].subs;
    WholeConversation(actions, c);
    TerminalsAreMine(t.log, c, subs);
    var mine := Mine(t.log, c, subs);
    TerminalsOfConversation(mine, c, subs, |mine|);
    assert mine[..|mine|] == mine;
    assert |mine| > 2 * |subs| by { Longer(mine, c, subs); }
  }

  lemma Longer(es: seq<Event>, c: Corr, subs: seq<Corr>)
    requires IsConversation(es, c, subs)
    ensures |es| > 2 * |subs|
  {
  }

  /**
    * Every request the loop can produce is among the scripts: what handle_request sends, whichever ids
    * it draws, is played by one.
    */
  lemma RequestsAreScripts(ra: Request, rounds: seq<Round>, name: bytes, rename: seq<Event>)
    requires SubsFit(rounds) && RenameFits(rename, ra, name)
    ensures var es := Replies(ra, rounds) + rename;
      && IsScript(ScriptOf(es), ra.corr)
      && Draws(ScriptOf(es)) == |AllSubs(rounds)|
      && Play(ScriptOf(es), ra.corr, 0, AllSubs(rounds)) == es
  {
    hide IsConversation, Play, ScriptOf;
    var es := Replies(ra, rounds) + rename;
    RequestConverses(ra, rounds, name, rename);
    ScriptPlays(es, ra.corr, AllSubs(rounds), 0, AllSubs(rounds));
    forall ids | |ids| == Draws(ScriptOf(es))
      ensures IsConversation(Play(ScriptOf(es), ra.corr, 0, ids), ra.corr, ids)
    {
      ScriptPlays(es, ra.corr, AllSubs(rounds), 0, ids);
    }
  }

  /** So is the single error of a request without a provider. */
  lemma ErrorIsScript(c: Corr)
    ensures var es := [RepError(c, UNAVAILABLE)];
      IsScript(ScriptOf(es), c) && Draws(ScriptOf(es)) == 0 && Play(ScriptOf(es), c, 0, []) == es
  {
    hide Play, ScriptOf, IsConversation;
    var es := [RepError(c, UNAVAILABLE)];
    ErrorConverses(c);
    ScriptPlays(es, c, [], 0, []);
    forall ids | |ids| == Draws(ScriptOf(es)) ensures IsConversation(Play(ScriptOf(es), c, 0, ids), c, ids) {
      ScriptPlays(es, c, [], 0, ids);
    }
  }

  lemma ErrorConverses(c: Corr)
    ensures IsConversation([RepError(c, UNAVAILABLE)], c, [])
  {
  }

  // --- What is sent is the script --------------------------------------------------------------

  /** What request `c` has sent, and will send, is what its script plays with the ids it draws. */
  ghost predicate Follows(s: State, c: Corr, script: seq<Step>)
    requires c in s.threads
  {
    var th := s.threads[c];
    && |th.subs| + Draws(th.rest) == Draws(script)
    && forall ids | |ids| == Draws(th.rest) ::
         Mine(s.log, c, th.subs) + Play(th.rest, c, Current(th), ids) == Play(script, c, 0, th.subs + ids)
  }

  lemma StillFollows(s: State, t: State, d: Corr, script: seq<Step>)
    requires d in s.threads && d in t.threads && t.threads[d] == s.threads[d] && Follows(s, d, script)
    requires Mine(t.log, d, s.threads[d].subs) == Mine(s.log, d, s.threads[d].subs)
    ensures Follows(t, d, script)
  {
    hide Play;
  }

  lemma AcceptFollows(s: State, c: Corr, script: seq<Step>)
    requires Logged(s) && Act(s, Accept(c, script)).Some?
    ensures Follows(Act(s, Accept(c, script)).value, c, script)
  {
    hide Play, IsScript;
    var t := Act(s, Accept(c, script)).value;
    NothingMine(s.log, c);
    forall ids | |ids| == Draws(script)
      ensures Mine(t.log, c, []) + Play(script, c, 0, ids) == Play(script, c, 0, [] + ids)
    {
      assert [] + ids == ids;
    }
  }

  lemma DrawFollows(s: State, c: Corr, script: seq<Step>)
    requires Logged(s) && Act(s, Advance(c)).Some? && s.threads[c].rest[0].Draw? && Follows(s, c, script)
    ensures Follows(Act(s, Advance(c)).value, c, script)
  {
    var t := Act(s, Advance(c)).value;
    var th := s.threads[c];
    MineUnchanged(s.log, c, th.subs, s.next);
    forall ids | |ids| == Draws(t.threads[c].rest)
      ensures Mine(t.log, c, t.threads[c].subs) + Play(t.threads[c].rest, c, s.next, ids)
           == Play(script, c, 0, t.threads[c].subs + ids)
    {
      var all := [s.next] + ids;
      assert all[1..] == ids;
      assert Play(th.rest, c, Current(th), all) == Play(t.threads[c].rest, c, s.next, ids);
      assert th.subs + all == t.threads[c].subs + ids;
    }
  }

  lemma SendFollows(s: State, c: Corr, script: seq<Step>)
    requires Act(s, Advance(c)).Some? && !s.threads[c].rest[0].Draw? && Follows(s, c, script)
    requires Concerns(Emitted(s.threads[c].rest[0], c, Current(s.threads[c]))[0], c, s.threads[c].subs)
    ensures Follows(Act(s, Advance(c)).value, c, script)
  {
    hide Concerns, Play, Mine, Emitted;
    var t := Act(s, Advance(c)).value;
    var th := s.threads[c];
    OneEvent(th.rest[0], c, Current(th));
    var e := Emitted(th.rest[0], c, Current(th))[0];
    MineAppend(s.log, e, c, th.subs);
    assert Draws(th.rest[1..]) == Draws(th.rest) by { PlayOne(th.rest, c, 0, seq(Draws(th.rest), _ => 0)); }
    forall ids | |ids| == Draws(t.threads[c].rest)
      ensures
        Mine(t.log, c, th.subs) + Play(t.threads[c].rest, c, Current(th), ids) == Play(script, c, 0, th.subs + ids)
    {
      PlayOne(th.rest, c, Current(th), ids);
      Assoc(Mine(s.log, c, th.subs), [e], Play(t.threads[c].rest, c, Current(th), ids));
    }
  }

  lemma FollowsOn(s: State, a: Action, d: Corr, script: seq<Step>)
    requires Inv(s) && Act(s, a).Some? && d in s.threads && Follows(s, d, script)
    ensures d in Act(s, a).value.threads && Follows(Act(s, a).value, d, script)
  {
    hide OnTrack, Mine, Play, IsScript, Follows, Drawn;
    var t := Act(s, a).value;
    match a
    case Accept(c, _) => StillFollows(s, t, d, script);
    case Advance(c) =>
      var th := s.threads[c];
      if th.rest[0].Draw? {
        if c == d { DrawFollows(s, c, script); } else { StillFollows(s, t, d, script); }
      } else {
        if th.rest[0].End? {
          EndHasId(s, c);
        }
        var e := Emitted(th.rest[0], c, Current(th))[0];
        assert t.log == s.log + [e];
        if c == d {
          SendFollows(s, c, script);
        } else {
          assert !Concerns(e, d, s.threads[d].subs) by { NotConcerned(s, c, d, e); }
          MineAppend(s.log, e, d, s.threads[d].subs);
          assert Mine(s.log, d, s.threads[d].subs) + [] == Mine(s.log, d, s.threads[d].subs);
          StillFollows(s, t, d, script);
        }
      }
  }

  /** A message of one request does not concern another. */
  lemma NotConcerned(s: State, c: Corr, d: Corr, e: Event)
    requires Inv(s) && c in s.threads && d in s.threads && c != d && Concerns(e, c, s.threads[c].subs)
    ensures !Concerns(e, d, s.threads[d].subs)
  {
    hide OnTrack;
  }

  lemma {:induction false} RunFollows(s: State, actions: seq<Action>, c: Corr, script: seq<Step>)
    requires Inv(s) && Run(s, actions).Some? && c in s.threads && Follows(s, c, script)
    ensures c in Run(s, actions).value.threads && Follows(Run(s, actions).value, c, script)
    decreases |actions|
  {
    hide Inv, Act, Follows;
    if actions != [] {
      FollowsOn(s, actions[0], c, script);
      StepInv(s, actions[0]);
      RunFollows(Act(s, actions[0]).value, actions[1..], c, script);
    }
  }

  lemma StepInv(s: State, a: Action)
    requires Inv(s) && Act(s, a).Some?
    ensures Inv(Act(s, a).value)
  {
    hide Inv, Act;
    match a
    case Accept(c, script) => AcceptInv(s, c, script);
    case Advance(c) => AdvanceInv(s, c);
  }

  lemma {:induction false} FollowsSomeScript(s: State, actions: seq<Action>, c: Corr) returns (script: seq<Step>)
    requires Inv(s) && Run(s, actions).Some? && c !in s.threads && c in Run(s, actions).value.threads
    ensures Accept(c, script) in actions && Follows(Run(s, actions).value, c, script)
    decreases |actions|
  {
    hide Inv, Follows, IsScript;
    var t := Act(s, actions[0]).value;
    StepInv(s, actions[0]);
    if c in t.threads {
      script := actions[0].script;
      assert Logged(s) by { InvIsLogged(s); }
      AcceptFollows(s, c, script);
      RunFollows(t, actions[1..], c, script);
    } else {
      script := FollowsSomeScript(t, actions[1..], c);
    }
  }

  lemma InvIsLogged(s: State)
    requires Inv(s)
    ensures Logged(s)
  {
  }

  /**
    * In every run, what a finished request has sent, in order and with every text, is exactly what its
    * script plays alone with the ids it drew: other requests do not show in it.
    */
  lemma MessagesAreTheScript(actions: seq<Action>, c: Corr) returns (script: seq<Step>)
    requires Run(Init, actions).Some?
    requires c in Run(Init, actions).value.threads && Run(Init, actions).value.threads[c].rest == []
    ensures var t := Run(Init, actions).value;
      && Accept(c, script) in actions && Draws(script) == |t.threads[c].subs|
      && Mine(t.log, c, t.threads[c].subs) == Play(script, c, 0, t.threads[c].subs)
  {
    hide Play, Mine, Inv;
    InitInv();
    script := FollowsSomeScript(Init, actions, c);
    var t := Run(Init, actions).value;
    var subs := t.threads[c].subs;
    assert subs + [] == subs;
    assert Play([], c, Current(t.threads[c]), []) == [] by { NothingToPlay(c, Current(t.threads[c])); }
    assert Mine(t.log, c, subs) + [] == Mine(t.log, c, subs);
  }

  lemma NothingToPlay(c: Corr, sub: Corr)
    ensures Draws([]) == 0 && Play([], c, sub, []) == []
  {
  }

  function Advances(c: Corr, n: nat): seq<Action> {
    if n == 0 then [] else [Advance(c)] + Advances(c, n - 1)
  }

  /** Wherever a run has got to, every request can be finished by its own steps alone. */
  lemma {:induction false} CanFinish(s: State, c: Corr)
    requires c in s.threads
    ensures var t := Run(s, Advances(c, |s.threads[c].rest|));
      t.Some? && c in t.value.threads && t.value.threads[c].rest == []
    decreases |s.threads[c].rest|
  {
    hide Emitted;
    var n := |s.threads[c].rest|;
    if n > 0 {
      CanFinish(Act(s, Advance(c)).value, c);
      assert Advances(c, n)[1..] == Advances(c, n - 1);
    }
  }
}
