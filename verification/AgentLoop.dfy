/**
  * The agentic loop of one request: provider calls, tool calls, sub-queries, and the messages the TUI
  * gets. Providers are arbitrary functions of the query and of how often they were asked.
  */
module AgentLoop {
  import opened Bytes
  import opened ChatHistory
  import opened JsonLookup
  import JsonParseSpec

  type Corr = nat

  datatype Reply = Reply(content: Option<bytes>, reasoning: Option<bytes>, toolCalls: seq<ToolCall>)

  datatype Query = Query(history: History, model: Option<bytes>, enableTools: bool)

  /** Provider answers: to the nth call of the loop, to a sub-query, and to the naming query. */
  datatype World = World(ask: (nat, Query) -> Option<Reply>,
                         sub: (Corr, Query) -> Option<Reply>,
                         name: Query -> Option<Reply>)

  datatype Event =
    | WorkerStart(sub: Corr, parent: Corr, model: bytes, description: bytes)
    | WorkerEnd(sub: Corr)
    | RepFinal(corr: Corr, session: nat, content: bytes, reasoning: Option<bytes>)
    | RepError(corr: Corr, error: bytes)
    | SessionRename(corr: Corr, session: nat, topic: bytes)

  datatype Turn = Turn(isUser: bool, text: bytes)

  /** A decoded MSG_REQ_SEND. */
  datatype Request = Request(corr: Corr, session: nat, turns: seq<Turn>, model: Option<bytes>, provider: Option<bytes>)

  const MAX_TOOL_ITERS: nat := 5

  // --- Tool calls --------------------------------------------------------------------------

  /** parse_ask_ai_args: the model and the prompt, both strings. */
  function AskAiArgs(arguments: Option<bytes>): Option<(bytes, bytes)> {
    if arguments.None? then None
    else
      match JsonParseSpec.Parse(arguments.value)
      case None => None
      case Some(root) =>
        (match (GetString(root, Ascii("model")), GetString(root, Ascii("prompt")))
         case (Some(model), Some(prompt)) => Some((model, prompt))
         case _ => None)
  }

  predicate IsAskAi(tc: ToolCall) {
    tc.name == Some(Ascii("ask_ai"))
  }

  /** The call starts a sub-query. */
  predicate StartsSub(tc: ToolCall) {
    IsAskAi(tc) && AskAiArgs(tc.arguments).Some?
  }

  function SubQuery(model: bytes, prompt: bytes): Query {
    Query([Plain(prompt, true, None)], Some(model), false)
  }

  /** What a sub-query's answer becomes. */
  function SubText(r: Option<Reply>): bytes {
    if r.Some? && OrEmpty(r.value.content) != [] then r.value.content.value else Ascii("(no response from sub-model)")
  }

  /** The result of a call that starts no sub-query. */
  function Refusal(tc: ToolCall): bytes {
    if IsAskAi(tc) then Ascii("(could not parse ask_ai arguments)") else Ascii("(tool not available)")
  }

  function SubCount(calls: seq<ToolCall>): nat {
    if calls == [] then 0
    else SubCount(calls[..|calls| - 1]) + if StartsSub(calls[|calls| - 1]) then 1 else 0
  }

  /** The result of one call; `sub` is the id of its sub-query, if it starts one. */
  function ResultFor(tc: ToolCall, sub: Corr, w: World): (m: Message)
    ensures m.toolCallId == Some(OrEmpty(tc.id)) && m.toolCalls == []
  {
    var text :=
      if StartsSub(tc) then
        var (model, prompt) := AskAiArgs(tc.arguments).value;
        SubText(w.sub(sub, SubQuery(model, prompt)))
      else Refusal(tc);
    Result(OrEmpty(tc.id), text)
  }

  /** The results of the calls; `subs` are the ids of the sub-queries among them. */
  function Results(calls: seq<ToolCall>, subs: seq<Corr>, w: World): (h: History)
    requires |subs| == SubCount(calls)
    decreases |calls|
  {
    if calls == [] then []
    else
      var k := |calls| - 1;
      if StartsSub(calls[k]) then
        Results(calls[..k], subs[..|subs| - 1], w) + [ResultFor(calls[k], subs[|subs| - 1], w)]
      else
        Results(calls[..k], subs, w) + [ResultFor(calls[k], 0, w)]
  }

  /** One result per call, in order, under the call's id. */
  lemma {:induction false} ResultsAnswer(calls: seq<ToolCall>, subs: seq<Corr>, w: World)
    requires |subs| == SubCount(calls)
    ensures AnswersTo(Results(calls, subs, w), calls)
    decreases |calls|
  {
    hide StartsSub, ResultFor;
    if calls != [] {
      var k := |calls| - 1;
      ResultsAnswer(calls[..k], if StartsSub(calls[k]) then subs[..|subs| - 1] else subs, w);
    }
  }

  /** START and END of every sub-query, one after the other. */
  function SubEvents(calls: seq<ToolCall>, subs: seq<Corr>, parent: Corr): (es: seq<Event>)
    requires |subs| == SubCount(calls)
    decreases |calls|
  {
    if calls == [] then []
    else
      var k := |calls| - 1;
      if StartsSub(calls[k]) then
        var (model, prompt) := AskAiArgs(calls[k].arguments).value;
        var sub := subs[|subs| - 1];
        SubEvents(calls[..k], subs[..|subs| - 1], parent)
        + [WorkerStart(sub, parent, model, Upto(prompt, 40)), WorkerEnd(sub)]
      else SubEvents(calls[..k], subs, parent)
  }

  // --- The loop ----------------------------------------------------------------------------

  /** One turn of the loop: the history the provider saw, its answer, the sub-queries it led to. */
  datatype Round = Round(asked: History, reply: Option<Reply>, subs: seq<Corr>)

  function CallsOf(reply: Option<Reply>): seq<ToolCall> {
    if reply.None? then [] else reply.value.toolCalls
  }

  /** A tool-call message and its results. */
  function Block(r: Round, w: World): History
    requires |r.subs| == SubCount(CallsOf(r.reply)) && r.reply.Some?
  {
    var reply := r.reply.value;
    [Calls(reply.content, reply.reasoning, reply.toolCalls)] + Results(reply.toolCalls, r.subs, w)
  }

  function ModelQuery(ra: Request, h: History): Query {
    Query(h, ra.model, ra.provider == None || ra.provider == Some(Ascii("xai")))
  }

  function InitialHistory(turns: seq<Turn>): (h: History)
    ensures |h| == |turns|
  {
    seq(|turns|, i requires 0 <= i < |turns| => Plain(turns[i].text, turns[i].isUser, None))
  }

  /** Round `k` asks the provider and follows from the round before. */
  ghost predicate RoundFits(ra: Request, w: World, rounds: seq<Round>, k: nat)
    requires k < |rounds|
  {
    && rounds[k].reply == w.ask(k, ModelQuery(ra, rounds[k].asked))
    && |rounds[k].subs| == SubCount(CallsOf(rounds[k].reply))
    && (k == 0 ==> rounds[0].asked == InitialHistory(ra.turns))
    && (k > 0 ==>
          && CallsOf(rounds[k - 1].reply) != []
          && |rounds[k - 1].subs| == SubCount(CallsOf(rounds[k - 1].reply))
          && rounds[k].asked == rounds[k - 1].asked + Block(rounds[k - 1], w))
  }

  ghost predicate RoundsFit(ra: Request, w: World, rounds: seq<Round>) {
    |rounds| <= MAX_TOOL_ITERS && forall k | 0 <= k < |rounds| :: RoundFits(ra, w, rounds, k)
  }

  /** The loop goes on while the answers are tool calls, five times at most. */
  ghost predicate Conversation(ra: Request, w: World, rounds: seq<Round>) {
    && RoundsFit(ra, w, rounds)
    && |rounds| > 0
    && (CallsOf(rounds[|rounds| - 1].reply) != [] ==> |rounds| == MAX_TOOL_ITERS)
  }

  /** The answer that ends the loop; None after a provider error or when the tool calls never stop. */
  function Answer(rounds: seq<Round>): Option<Reply> {
    if rounds != [] && CallsOf(rounds[|rounds| - 1].reply) == [] then rounds[|rounds| - 1].reply else None
  }

  function AnswerText(rounds: seq<Round>): bytes {
    if Answer(rounds).Some? then OrEmpty(Answer(rounds).value.content) else []
  }

  function AllSubs(rounds: seq<Round>): seq<Corr> {
    if rounds == [] then [] else AllSubs(rounds[..|rounds| - 1]) + rounds[|rounds| - 1].subs
  }

  ghost predicate SubsFit(rounds: seq<Round>) {
    forall k | 0 <= k < |rounds| :: |rounds[k].subs| == SubCount(CallsOf(rounds[k].reply))
  }

  ghost function RoundEvents(rounds: seq<Round>, parent: Corr): seq<Event>
    requires SubsFit(rounds)
  {
    if rounds == [] then []
    else
      var k := |rounds| - 1;
      RoundEvents(rounds[..k], parent) + SubEvents(CallsOf(rounds[k].reply), rounds[k].subs, parent)
  }

  /** Every provider call sees a well-formed history, and there are at most five calls. */
  lemma {:induction false} HistoriesWellFormed(ra: Request, w: World, rounds: seq<Round>, k: nat)
    requires RoundsFit(ra, w, rounds) && k < |rounds|
    ensures |rounds| <= 5 && WellFormed(rounds[k].asked)
    ensures InitialHistory(ra.turns) <= rounds[k].asked
  {
    hide WellFormed, Results, SubCount;
    assert RoundFits(ra, w, rounds, k);
    if k == 0 {
      PlainWellFormed(rounds[0].asked);
    } else {
      HistoriesWellFormed(ra, w, rounds, k - 1);
      var r := rounds[k - 1].reply.value;
      ResultsAnswer(r.toolCalls, rounds[k - 1].subs, w);
      BlockWellFormed(Calls(r.content, r.reasoning, r.toolCalls), Results(r.toolCalls, rounds[k - 1].subs, w));
      WellFormedAppend(rounds[k - 1].asked, Block(rounds[k - 1], w));
    }
  }

  lemma {:induction false} PlainWellFormed(h: History)
    requires forall m | m in h :: m.toolCalls == [] && m.toolCallId == None
    ensures WellFormed(h)
    decreases |h|
  {
    if h != [] {
      assert h[0] in h;
      PlainWellFormed(h[1..]);
    }
  }

  /**
    * What the model is told of its `t`-th call: the words of the sub-model, or why there are none. The
    * sub-model is asked the prompt of the call alone, without tools, under the id of this sub-query.
    */
  lemma {:induction false} ResultSays(calls: seq<ToolCall>, subs: seq<Corr>, w: World, t: nat)
    requires |subs| == SubCount(calls) && t < |calls|
    ensures |Results(calls, subs, w)| == |calls|
    ensures var tc, j := calls[t], SubCount(calls[..t]);
      var text := Results(calls, subs, w)[t].text;
      if tc.name != Some(Ascii("ask_ai")) then text == Some(Ascii("(tool not available)"))
      else if AskAiArgs(tc.arguments).None? then text == Some(Ascii("(could not parse ask_ai arguments)"))
      else
        var (model, prompt) := AskAiArgs(tc.arguments).value;
        && j < |subs|
        && var r := w.sub(subs[j], Query([Message(Some(prompt), true, None, [], None)], Some(model), false));
        && (r.Some? && r.value.content.Some? && r.value.content.value != [] ==> text == r.value.content)
        && (r.None? || r.value.content.None? || r.value.content.value == [] ==>
              text == Some(Ascii("(no response from sub-model)")))
    decreases |calls|
  {
    hide AskAiArgs, Ascii;
    var k := |calls| - 1;
    var before := if StartsSub(calls[k]) then subs[..|subs| - 1] else subs;
    assert |Results(calls, subs, w)| == |calls| by { ResultsAnswer(calls, subs, w); }
    if t < k {
      ResultSays(calls[..k], before, w, t);
      assert calls[..k][..t] == calls[..t];
      ResultsBefore(calls, subs, w, t);
    }
  }

  lemma ResultsBefore(calls: seq<ToolCall>, subs: seq<Corr>, w: World, t: nat)
    requires |subs| == SubCount(calls) && t + 1 < |calls|
    ensures var k := |calls| - 1;
      var before := if StartsSub(calls[k]) then subs[..|subs| - 1] else subs;
      && |Results(calls[..k], before, w)| == k && |Results(calls, subs, w)| == |calls|
      && Results(calls, subs, w)[t] == Results(calls[..k], before, w)[t]
  {
    hide StartsSub, ResultFor, AnswersTo;
    var k := |calls| - 1;
    ResultsLength(calls, subs, w);
    ResultsLength(calls[..k], if StartsSub(calls[k]) then subs[..|subs| - 1] else subs, w);
  }

  lemma ResultsLength(calls: seq<ToolCall>, subs: seq<Corr>, w: World)
    requires |subs| == SubCount(calls)
    ensures |Results(calls, subs, w)| == |calls|
  {
    ResultsAnswer(calls, subs, w);
  }

  /** Of the sub-query of the `t`-th call the TUI hears which model is asked and how the prompt begins. */
  lemma {:induction false} EventsSay(calls: seq<ToolCall>, subs: seq<Corr>, parent: Corr, t: nat)
    requires |subs| == SubCount(calls) && t < |calls|
    ensures |SubEvents(calls, subs, parent)| == 2 * |subs|
    ensures calls[t].name == Some(Ascii("ask_ai")) && AskAiArgs(calls[t].arguments).Some? ==>
      var (es, j) := (SubEvents(calls, subs, parent), SubCount(calls[..t]));
      && j < |subs| && es[2 * j].WorkerStart? && es[2 * j].sub == subs[j] && es[2 * j].parent == parent
      && var (model, prompt) := AskAiArgs(calls[t].arguments).value;
      && es[2 * j].model == model && es[2 * j].description <= prompt
      && |es[2 * j].description| == (if |prompt| < 40 then |prompt| else 40)
      && es[2 * j + 1] == WorkerEnd(subs[j])
    decreases |calls|
  {
    hide AskAiArgs, Ascii;
    var k := |calls| - 1;
    var before := if StartsSub(calls[k]) then subs[..|subs| - 1] else subs;
    if t < k {
      EventsSay(calls[..k], before, parent, t);
      assert calls[..k][..t] == calls[..t];
    } else if k > 0 {
      EventsSay(calls[..k], before, parent, 0);
    } else {
      assert calls[..k] == [];
    }
  }

  /** The provider is asked about the history so far, with tools unless the request names another provider. */
  lemma RoundAsks(ra: Request, w: World, rounds: seq<Round>, k: nat)
    requires RoundsFit(ra, w, rounds) && k < |rounds|
    ensures rounds[k].reply == w.ask(k, Query(rounds[k].asked, ra.model,
                                              ra.provider.Some? ==> ra.provider.value == Ascii("xai")))
    ensures k == 0 ==> |rounds[0].asked| == |ra.turns|
    ensures k == 0 ==> forall i | 0 <= i < |ra.turns| ::
      rounds[0].asked[i] == Message(Some(ra.turns[i].text), ra.turns[i].isUser, None, [], None)
  {
    hide Block;
    assert RoundFits(ra, w, rounds, k);
  }

  /** From one round to the next the history grows by the answer with its tool calls, and one result for each. */
  lemma HistoryGrows(ra: Request, w: World, rounds: seq<Round>, k: nat)
    requires RoundsFit(ra, w, rounds) && k + 1 < |rounds|
    ensures var before, after := rounds[k].asked, rounds[k + 1].asked;
      && rounds[k].reply.Some? && rounds[k].reply.value.toolCalls != []
      && var r := rounds[k].reply.value;
      && |rounds[k].subs| == SubCount(r.toolCalls)
      && |after| == |before| + 1 + |r.toolCalls| && before <= after
      && after[|before|].text == (if r.content == Some([]) then None else r.content)
      && after[|before|].reasoning == (if r.reasoning == Some([]) then None else r.reasoning)
      && !after[|before|].isUser && after[|before|].toolCalls == r.toolCalls
      && after[|before| + 1..] == Results(r.toolCalls, rounds[k].subs, w)
  {
    hide Results, SubCount;
    assert RoundFits(ra, w, rounds, k);
    assert RoundFits(ra, w, rounds, k + 1);
    ResultsLength(rounds[k].reply.value.toolCalls, rounds[k].subs, w);
  }

  // --- The thread --------------------------------------------------------------------------

  /** The socket to the TUI; each send is one message. */
  class Tui {
    var sent: seq<Event>
  }

  /** sub_corr_next. Other threads may draw ids before this one gets the lock. */
  class SubIds {
    var next: Corr

    /** alloc_sub_corr. */
    method Alloc(drawnByOthers: nat) returns (c: Corr)
      modifies this
      ensures c == old(next) + drawnByOthers && next == c + 1
    {
      c := next + drawnByOthers;
      next := c + 1;
    }
  }

  /** Ids in strictly ascending order, from `lo` on and below `hi`. */
  ghost predicate Ascending(ids: seq<Corr>, lo: Corr, hi: Corr) {
    && lo <= hi
    && (forall i | 0 <= i < |ids| :: lo <= ids[i] < hi)
    && (forall i, j | 0 <= i < j < |ids| :: ids[i] < ids[j])
  }

  lemma AscendingAppend(a: seq<Corr>, b: seq<Corr>, lo: Corr, mid: Corr, hi: Corr)
    requires Ascending(a, lo, mid) && Ascending(b, mid, hi)
    ensures Ascending(a + b, lo, hi)
  {
  }

  /** run_subquery. */
  method RunSubquery(parent: Corr, model: bytes, prompt: bytes, others: nat, w: World, tui: Tui, ids: SubIds)
    returns (result: bytes, ghost sub: Corr)
    modifies tui, ids
    ensures old(ids.next) <= sub < ids.next
    ensures tui.sent == old(tui.sent) + [WorkerStart(sub, parent, model, Upto(prompt, 40)), WorkerEnd(sub)]
    ensures result == SubText(w.sub(sub, SubQuery(model, prompt)))
  {
    var c := ids.Alloc(others);
    sub := c;
    tui.sent := tui.sent + [WorkerStart(c, parent, model, Upto(prompt, 40))];
    var cb := new ChatBuffer();
    cb.Add(prompt, true);
    assert cb.msgs[..cb.count] == cb.Contents() == [Plain(prompt, true, None)];
    var pr := w.sub(c, Query(cb.msgs[..cb.count], Some(model), false));
    result := if pr.Some? && pr.value.content.Some? && pr.value.content.value != [] then pr.value.content.value
              else Ascii("(no response from sub-model)");
    tui.sent := tui.sent + [WorkerEnd(c)];
  }

  /** One tool call: its result joins the history. */
  method ExecuteCall(parent: Corr, tc: ToolCall, others: nat, w: World, cb: ChatBuffer, tui: Tui, ids: SubIds)
    returns (ghost subs: seq<Corr>)
    requires cb.Valid()
    modifies tui, ids, cb, cb.msgs
    ensures cb.Valid() && (cb.msgs == old(cb.msgs) || fresh(cb.msgs))
    ensures |subs| == SubCount([tc]) && Ascending(subs, old(ids.next), ids.next)
    ensures cb.Contents() == old(cb.Contents()) + Results([tc], subs, w)
    ensures tui.sent == old(tui.sent) + SubEvents([tc], subs, parent)
  {
    hide Ascii, SubText;
    var id := if tc.id.Some? then tc.id.value else [];
    OneCall(tc);
    if tc.name != Some(Ascii("ask_ai")) {
      cb.AddToolResult(id, Ascii("(tool not available)"));
      return [];
    }
    var args := AskAiArgs(tc.arguments);
    if args.Some? {
      var result, sub := RunSubquery(parent, args.value.0, args.value.1, others, w, tui, ids);
      cb.AddToolResult(id, result);
      subs := [sub];
      assert subs[..0] == [];
    } else {
      cb.AddToolResult(id, Ascii("(could not parse ask_ai arguments)"));
      return [];
    }
  }

  lemma OneCall(tc: ToolCall)
    ensures SubCount([tc]) == if StartsSub(tc) then 1 else 0
    ensures [tc][..0] == []
  {
    assert SubCount([]) == 0;
  }

  lemma CallStep(calls: seq<ToolCall>, t: nat, subs: seq<Corr>, more: seq<Corr>, w: World, parent: Corr)
    requires t < |calls| && |subs| == SubCount(calls[..t]) && |more| == SubCount([calls[t]])
    ensures |subs + more| == SubCount(calls[..t + 1])
    ensures Results(calls[..t + 1], subs + more, w) == Results(calls[..t], subs, w) + Results([calls[t]], more, w)
    ensures SubEvents(calls[..t + 1], subs + more, parent)
         == SubEvents(calls[..t], subs, parent) + SubEvents([calls[t]], more, parent)
  {
    hide AskAiArgs, IsAskAi, SubText, SubQuery;
    var one := [calls[t]];
    OneCall(calls[t]);
    assert calls[..t + 1][..t] == calls[..t];
    assert calls[..t + 1][t] == calls[t];
    assert one[..0] == [];
    if more == [] {
      assert subs + more == subs;
    } else {
      assert (subs + more)[..|subs|] == subs;
      assert more[..0] == [];
    }
  }

  /** The inner loop: every call of the answer, in order. */
  method ExecuteCalls(parent: Corr, calls: seq<ToolCall>, others: (nat) -> nat, w: World,
                      cb: ChatBuffer, tui: Tui, ids: SubIds)
    returns (ghost subs: seq<Corr>)
    requires cb.Valid()
    modifies tui, ids, cb, cb.msgs
    ensures cb.Valid() && (cb.msgs == old(cb.msgs) || fresh(cb.msgs))
    ensures |subs| == SubCount(calls) && Ascending(subs, old(ids.next), ids.next)
    ensures cb.Contents() == old(cb.Contents()) + Results(calls, subs, w)
    ensures tui.sent == old(tui.sent) + SubEvents(calls, subs, parent)
  {
    hide AskAiArgs, IsAskAi, StartsSub, Results, SubEvents;
    subs := [];
    ghost var h0, e0 := cb.Contents(), tui.sent;
    NoCalls(calls, w, parent);
    for t := 0 to |calls|
      invariant cb.Valid() && (cb.msgs == old(cb.msgs) || fresh(cb.msgs))
      invariant |subs| == SubCount(calls[..t]) && Ascending(subs, old(ids.next), ids.next)
      invariant cb.Contents() == h0 + Results(calls[..t], subs, w)
      invariant tui.sent == e0 + SubEvents(calls[..t], subs, parent)
    {
      ghost var mid := ids.next;
      ghost var more := ExecuteCall(parent, calls[t], others(t), w, cb, tui, ids);
      CallStep(calls, t, subs, more, w, parent);
      AscendingAppend(subs, more, old(ids.next), mid, ids.next);
      Assoc(h0, Results(calls[..t], subs, w), Results([calls[t]], more, w));
      Assoc(e0, SubEvents(calls[..t], subs, parent), SubEvents([calls[t]], more, parent));
      subs := subs + more;
    }
    assert calls[..|calls|] == calls;
  }

  lemma NoCalls(calls: seq<ToolCall>, w: World, parent: Corr)
    ensures calls[..0] == [] && SubCount([]) == 0 && Results([], [], w) == [] && SubEvents([], [], parent) == []
    ensures forall h: History :: h + [] == h
    ensures forall es: seq<Event> :: es + [] == es
  {
  }

  // --- The outer loop ----------------------------------------------------------------------

  /** The history the next round will ask with. */
  ghost predicate Continues(ra: Request, w: World, rounds: seq<Round>, h: History)
    requires SubsFit(rounds)
  {
    if rounds == [] then h == InitialHistory(ra.turns)
    else
      var last := rounds[|rounds| - 1];
      CallsOf(last.reply) != [] && h == last.asked + Block(last, w)
  }

  lemma NextRound(ra: Request, w: World, rounds: seq<Round>, r: Round)
    requires RoundsFit(ra, w, rounds) && SubsFit(rounds) && Continues(ra, w, rounds, r.asked)
    requires |rounds| < MAX_TOOL_ITERS && |r.subs| == SubCount(CallsOf(r.reply))
    requires r.reply == w.ask(|rounds|, ModelQuery(ra, r.asked))
    ensures RoundsFit(ra, w, rounds + [r]) && SubsFit(rounds + [r])
    ensures AllSubs(rounds + [r]) == AllSubs(rounds) + r.subs
    ensures forall parent ::
      RoundEvents(rounds + [r], parent) == RoundEvents(rounds, parent) + SubEvents(CallsOf(r.reply), r.subs, parent)
  {
    hide Results, SubCount, SubEvents, ModelQuery, RoundFits, Continues;
    var more := rounds + [r];
    assert more[..|rounds|] == rounds;
    assert SubsFit(more);
    forall k | 0 <= k < |more| ensures RoundFits(ra, w, more, k) {
      if k < |rounds| {
        assert RoundFits(ra, w, rounds, k);
        EarlierRound(ra, w, rounds, r, k);
      } else {
        NewRound(ra, w, rounds, r);
      }
    }
  }

  lemma EarlierRound(ra: Request, w: World, rounds: seq<Round>, r: Round, k: nat)
    requires k < |rounds| && RoundFits(ra, w, rounds, k)
    ensures RoundFits(ra, w, rounds + [r], k)
  {
    hide Results, SubCount, ModelQuery, Block;
    assert k > 0 ==> (rounds + [r])[k - 1] == rounds[k - 1];
  }

  lemma NewRound(ra: Request, w: World, rounds: seq<Round>, r: Round)
    requires SubsFit(rounds) && Continues(ra, w, rounds, r.asked)
    requires |r.subs| == SubCount(CallsOf(r.reply)) && r.reply == w.ask(|rounds|, ModelQuery(ra, r.asked))
    ensures RoundFits(ra, w, rounds + [r], |rounds|)
  {
    hide Results, SubCount, ModelQuery, Block;
    assert (rounds + [r])[|rounds|] == r;
  }

  /** An answer with tool calls: the message that carries them, then their results. */
  method ToolRound(parent: Corr, reply: Reply, others: (nat) -> nat, w: World, cb: ChatBuffer, tui: Tui, ids: SubIds)
    returns (ghost subs: seq<Corr>)
    requires cb.Valid()
    modifies tui, ids, cb, cb.msgs
    ensures cb.Valid() && (cb.msgs == old(cb.msgs) || fresh(cb.msgs))
    ensures |subs| == SubCount(reply.toolCalls) && Ascending(subs, old(ids.next), ids.next)
    ensures cb.Contents() == old(cb.Contents()) + Block(Round(old(cb.Contents()), Some(reply), subs), w)
    ensures tui.sent == old(tui.sent) + SubEvents(reply.toolCalls, subs, parent)
  {
    hide Results, SubCount, SubEvents, Calls;
    ghost var h := cb.Contents();
    cb.AddToolCalls(reply.content, reply.reasoning, reply.toolCalls);
    subs := ExecuteCalls(parent, reply.toolCalls, others, w, cb, tui, ids);
    Assoc(h, [Calls(reply.content, reply.reasoning, reply.toolCalls)], Results(reply.toolCalls, subs, w));
  }

  /** The agentic loop: at most five provider calls, each on the history the last one left. */
  method Converse(ra: Request, others: (nat, nat) -> nat, w: World, cb: ChatBuffer, tui: Tui, ids: SubIds)
    returns (answer: Option<Reply>, ghost rounds: seq<Round>)
    requires cb.Valid() && cb.Contents() == InitialHistory(ra.turns)
    modifies tui, ids, cb, cb.msgs
    ensures cb.Valid() && (cb.msgs == old(cb.msgs) || fresh(cb.msgs))
    ensures Conversation(ra, w, rounds) && answer == Answer(rounds)
    ensures InitialHistory(ra.turns) <= cb.Contents()
    ensures SubsFit(rounds) && tui.sent == old(tui.sent) + RoundEvents(rounds, ra.corr)
    ensures Ascending(AllSubs(rounds), old(ids.next), ids.next)
  {
    hide Results, SubCount, SubEvents, AskAiArgs, RoundFits, Block, RoundEvents, AllSubs;
    rounds := [];
    NoRounds(ra.corr);
    answer := None;
    var iters := 0;
    assert tui.sent + [] == tui.sent;
    while iters < MAX_TOOL_ITERS
      invariant cb.Valid() && (cb.msgs == old(cb.msgs) || fresh(cb.msgs))
      invariant 0 <= iters == |rounds| <= MAX_TOOL_ITERS && RoundsFit(ra, w, rounds) && SubsFit(rounds)
      invariant Continues(ra, w, rounds, cb.Contents()) && answer == None
      invariant InitialHistory(ra.turns) <= cb.Contents()
      invariant tui.sent == old(tui.sent) + RoundEvents(rounds, ra.corr)
      invariant Ascending(AllSubs(rounds), old(ids.next), ids.next)
    {
      ghost var before, h, mid := rounds, cb.Contents(), ids.next;
      var supportsTools := ra.provider == None || ra.provider == Some(Ascii("xai"));
      var pr := w.ask(iters, Query(cb.msgs[..cb.count], ra.model, supportsTools));
      iters := iters + 1;
      if pr.None? || pr.value.toolCalls == [] {
        answer := pr;
        assert SubCount([]) == 0 by { NoCalls([], w, ra.corr); }
        NextRound(ra, w, before, Round(h, pr, []));
        LastRound(before, Round(h, pr, []));
        rounds := before + [Round(h, pr, [])];
        break;
      }
      ghost var subs := ToolRound(ra.corr, pr.value, t => others(iters, t), w, cb, tui, ids);
      NextRound(ra, w, before, Round(h, pr, subs));
      Assoc(old(tui.sent), RoundEvents(before, ra.corr), SubEvents(pr.value.toolCalls, subs, ra.corr));
      AscendingAppend(AllSubs(before), subs, old(ids.next), mid, ids.next);
      rounds := before + [Round(h, pr, subs)];
    }
  }

  lemma NoRounds(parent: Corr)
    ensures SubsFit([]) && RoundEvents([], parent) == [] && AllSubs([]) == []
  {
  }

  /** A round without tool calls adds no sub-queries and answers the request. */
  lemma LastRound(rounds: seq<Round>, r: Round)
    requires SubsFit(rounds) && r.subs == [] && CallsOf(r.reply) == []
    ensures SubsFit(rounds + [r]) && Answer(rounds + [r]) == r.reply
    ensures AllSubs(rounds + [r]) == AllSubs(rounds)
    ensures forall parent :: RoundEvents(rounds + [r], parent) == RoundEvents(rounds, parent)
  {
    assert (rounds + [r])[..|rounds|] == rounds;
    assert AllSubs(rounds) + [] == AllSubs(rounds);
    forall parent ensures RoundEvents(rounds + [r], parent) == RoundEvents(rounds, parent) {
      assert RoundEvents(rounds, parent) + [] == RoundEvents(rounds, parent);
    }
  }

  // --- The whole request -------------------------------------------------------------------

  predicate IsSpace(b: byte) {
    b == SPACE || b == LF || b == CR || b == TAB
  }

  /** Leading white space, then trailing white space and full stops, but never the last character. */
  predicate IsTopicOf(content: bytes, i: nat, j: nat) {
    && i <= j <= |content|
    && (forall k | 0 <= k < i :: IsSpace(content[k]))
    && (i < |content| ==> !IsSpace(content[i]) && i < j)
    && (forall k | j <= k < |content| :: IsSpace(content[k]) || content[k] == DOT)
    && (i + 1 < j ==> !IsSpace(content[j - 1]) && content[j - 1] != DOT)
  }

  /** The two trimming loops; the result is empty exactly when there is nothing but white space. */
  method TrimTopic(content: bytes) returns (t: bytes, i: nat, j: nat)
    ensures IsTopicOf(content, i, j) && t == content[i..j]
    ensures t == [] <==> forall k | 0 <= k < |content| :: IsSpace(content[k])
  {
    i := 0;
    while i < |content| && IsSpace(content[i])
      invariant i <= |content| && forall k | 0 <= k < i :: IsSpace(content[k])
    {
      i := i + 1;
    }
    j := |content|;
    while j - 1 > i && (IsSpace(content[j - 1]) || content[j - 1] == DOT)
      invariant i <= j <= |content| && (i < |content| ==> i < j)
      invariant forall k | j <= k < |content| :: IsSpace(content[k]) || content[k] == DOT
    {
      j := j - 1;
    }
    t := content[i..j];
  }

  /** A topic is determined by the answer. */
  lemma TopicDetermined(content: bytes, i: nat, j: nat, i': nat, j': nat)
    requires IsTopicOf(content, i, j) && IsTopicOf(content, i', j')
    ensures i == i' && j == j'
  {
  }

  /** A name is asked for on the first turn of a session only. */
  predicate Names(ra: Request, answer: bytes) {
    |ra.turns| == 1 && answer != [] && ra.turns[0].isUser
  }

  function NamingQuery(question: bytes, answer: bytes): Query {
    var prompt := Ascii("Summarise the following conversation in 2-4 words as a concise topic label. ")
                  + Ascii("Reply with ONLY those words, no punctuation, no quotes, no explanation.")
                  + [LF, LF] + Ascii("User: ") + Upto(question, 500) + [LF] + Ascii("Assistant: ") + Upto(answer, 500);
    Query([Plain(prompt, true, None)], Some(Ascii("grok-3-mini-fast")), false)
  }

  /** The naming query's answer, untrimmed; empty when there is none. */
  function Name(ra: Request, answer: bytes, w: World): bytes {
    if !Names(ra, answer) then []
    else
      var r := w.name(NamingQuery(ra.turns[0].text, answer));
      if r.None? then [] else OrEmpty(r.value.content)
  }

  /** The messages after the final reply: one rename when a name is left after trimming, else none. */
  ghost predicate RenameFits(es: seq<Event>, ra: Request, name: bytes) {
    if forall k | 0 <= k < |name| :: IsSpace(name[k]) then es == []
    else |es| == 1 && es[0].SessionRename? && es[0].corr == ra.corr && es[0].session == ra.session
         && exists i: nat, j: nat :: IsTopicOf(name, i, j) && es[0].topic == name[i..j]
  }

  /** What follows the final reply is determined by the request and the proposed name. */
  lemma RenameDetermined(es: seq<Event>, es': seq<Event>, ra: Request, name: bytes)
    requires RenameFits(es, ra, name) && RenameFits(es', ra, name)
    ensures es == es'
  {
    if es != [] {
      var i: nat, j: nat :| IsTopicOf(name, i, j) && es[0].topic == name[i..j];
      var i': nat, j': nat :| IsTopicOf(name, i', j') && es'[0].topic == name[i'..j'];
      TopicDetermined(name, i, j, i', j');
      assert es == [es[0]] && es' == [es'[0]];
    }
  }

  /** A session is renamed exactly when the only turn was the user's, there is an answer, and a name is proposed. */
  lemma RenamedExactly(es: seq<Event>, ra: Request, answer: bytes, w: World)
    requires RenameFits(es, ra, Name(ra, answer, w))
    ensures |es| <= 1
    ensures es != [] <==>
      && |ra.turns| == 1 && ra.turns[0].isUser && answer != []
      && var r := w.name(NamingQuery(ra.turns[0].text, answer));
      && r.Some? && r.value.content.Some?
      && exists k :: 0 <= k < |r.value.content.value| && r.value.content.value[k] !in {SPACE, LF, CR, TAB}
  {
    hide NamingQuery, IsTopicOf;
  }

  function AnswerReasoning(rounds: seq<Round>): Option<bytes> {
    if Answer(rounds).Some? then Answer(rounds).value.reasoning else None
  }

  /** What a request sends up to its final reply. */
  ghost function Replies(ra: Request, rounds: seq<Round>): seq<Event>
    requires SubsFit(rounds)
  {
    RoundEvents(rounds, ra.corr) + [RepFinal(ra.corr, ra.session, AnswerText(rounds), AnswerReasoning(rounds))]
  }

  predicate EndsRequest(e: Event) {
    e.RepFinal? || e.RepError?
  }

  /** The provider has answered, and with words instead of tool calls. */
  predicate Says(r: Option<Reply>) {
    r.Some? && r.value.toolCalls == []
  }

  /**
    * Among these messages, one ends the request: it carries what this reply of the provider says, its
    * content (empty for NULL) and its reasoning, or nothing.
    */
  ghost predicate AnswersWith(es: seq<Event>, ra: Request, r: Option<Reply>) {
    exists i ::
      && 0 <= i < |es| && es[i].RepFinal? && es[i].corr == ra.corr && es[i].session == ra.session
      && es[i].content == (if Says(r) && r.value.content.Some? then r.value.content.value else [])
      && es[i].reasoning == (if Says(r) then r.value.reasoning else None)
      && forall j | 0 <= j < |es| && j != i :: !EndsRequest(es[j])
  }

  lemma {:induction false} SubEventsEndNothing(calls: seq<ToolCall>, subs: seq<Corr>, parent: Corr)
    requires |subs| == SubCount(calls)
    ensures forall e | e in SubEvents(calls, subs, parent) :: !EndsRequest(e)
    decreases |calls|
  {
    hide StartsSub, AskAiArgs;
    if calls != [] {
      var k := |calls| - 1;
      SubEventsEndNothing(calls[..k], if StartsSub(calls[k]) then subs[..|subs| - 1] else subs, parent);
    }
  }

  lemma {:induction false} RoundEventsEndNothing(rounds: seq<Round>, parent: Corr)
    requires SubsFit(rounds)
    ensures forall e | e in RoundEvents(rounds, parent) :: !EndsRequest(e)
  {
    if rounds != [] {
      var k := |rounds| - 1;
      RoundEventsEndNothing(rounds[..k], parent);
      SubEventsEndNothing(CallsOf(rounds[k].reply), rounds[k].subs, parent);
    }
  }

  /** A request is answered with what the provider said in the last round. */
  lemma AnsweredWithLastReply(ra: Request, rounds: seq<Round>, name: bytes, rename: seq<Event>)
    requires SubsFit(rounds) && rounds != [] && RenameFits(rename, ra, name)
    ensures AnswersWith(Replies(ra, rounds) + rename, ra, rounds[|rounds| - 1].reply)
    ensures AnswerText(rounds) == var r := rounds[|rounds| - 1].reply;
      if Says(r) && r.value.content.Some? then r.value.content.value else []
  {
    hide RoundEvents;
    RoundEventsEndNothing(rounds, ra.corr);
    var es, i := Replies(ra, rounds) + rename, |RoundEvents(rounds, ra.corr)|;
    forall j | 0 <= j < |es| && j != i ensures !EndsRequest(es[j]) {
      assert j < i ==> es[j] in RoundEvents(rounds, ra.corr);
    }
    assert es[i].RepFinal?;
  }

  method FillHistory(cb: ChatBuffer, turns: seq<Turn>)
    requires cb.Valid() && cb.Contents() == []
    modifies cb, cb.msgs
    ensures cb.Valid() && (cb.msgs == old(cb.msgs) || fresh(cb.msgs))
    ensures cb.Contents() == InitialHistory(turns)
  {
    for i := 0 to |turns|
      invariant cb.Valid() && (cb.msgs == old(cb.msgs) || fresh(cb.msgs))
      invariant cb.Contents() == InitialHistory(turns[..i])
    {
      cb.Add(turns[i].text, turns[i].isUser);
      assert InitialHistory(turns[..i + 1])
          == InitialHistory(turns[..i]) + [Plain(turns[i].text, turns[i].isUser, None)];
    }
    assert turns[..|turns|] == turns;
  }

  /** The automatic name, for the first turn of a session. */
  method SendName(ra: Request, content: bytes, w: World, cb: ChatBuffer, tui: Tui)
    requires cb.Valid() && InitialHistory(ra.turns) <= cb.Contents()
    modifies tui
    ensures |old(tui.sent)| <= |tui.sent| && tui.sent[..|old(tui.sent)|] == old(tui.sent)
    ensures RenameFits(tui.sent[|old(tui.sent)|..], ra, Name(ra, content, w))
  {
    hide NamingQuery, IsSpace, IsTopicOf;
    ghost var before := tui.sent;
    if |ra.turns| != 1 || content == [] {
      return;
    }
    assert cb.Contents()[0] == InitialHistory(ra.turns)[0];
    if cb.count == 0 || !cb.msgs[0].isUser {
      return;
    }
    var r := w.name(NamingQuery(cb.msgs[0].text.value, content));
    if r.Some? && r.value.content.Some? && r.value.content.value != [] {
      var t, i, j := TrimTopic(r.value.content.value);
      if t != [] {
        tui.sent := tui.sent + [SessionRename(ra.corr, ra.session, t)];
        assert tui.sent[|before|..] == [SessionRename(ra.corr, ra.session, t)];
      }
    }
  }

  const UNAVAILABLE := Ascii("provider unavailable (check API keys)")

  /** handle_request; `available` is whether get_provider found a working provider. */
  method HandleRequest(ra: Request, available: bool, others: (nat, nat) -> nat, w: World, tui: Tui, ids: SubIds)
    returns (ghost rounds: seq<Round>)
    modifies tui, ids
    ensures !available ==> rounds == [] && ids.next == old(ids.next)
    ensures !available ==> tui.sent == old(tui.sent) + [RepError(ra.corr, UNAVAILABLE)]
    ensures available ==> Conversation(ra, w, rounds) && SubsFit(rounds)
    ensures available ==> Ascending(AllSubs(rounds), old(ids.next), ids.next)
    ensures available ==> |old(tui.sent) + Replies(ra, rounds)| <= |tui.sent|
    ensures available ==> tui.sent[..|old(tui.sent) + Replies(ra, rounds)|] == old(tui.sent) + Replies(ra, rounds)
    ensures available ==>
      RenameFits(tui.sent[|old(tui.sent) + Replies(ra, rounds)|..], ra, Name(ra, AnswerText(rounds), w))
    ensures available ==>
      |old(tui.sent)| <= |tui.sent| && AnswersWith(tui.sent[|old(tui.sent)|..], ra, rounds[|rounds| - 1].reply)
  {
    hide RenameFits, AnswersWith, Name, RoundsFit, Ascending, RoundEvents;
    if !available {
      tui.sent := tui.sent + [RepError(ra.corr, UNAVAILABLE)];
      return [];
    }
    var cb := new ChatBuffer();
    FillHistory(cb, ra.turns);
    var answer;
    answer, rounds := Converse(ra, others, w, cb, tui, ids);
    var content := if answer.Some? && answer.value.content.Some? then answer.value.content.value else [];
    var reasoning := if answer.Some? then answer.value.reasoning else None;
    tui.sent := tui.sent + [RepFinal(ra.corr, ra.session, content, reasoning)];
    Assoc(old(tui.sent), RoundEvents(rounds, ra.corr), [RepFinal(ra.corr, ra.session, content, reasoning)]);
    ghost var sent := tui.sent;
    assert sent == old(tui.sent) + Replies(ra, rounds);
    assert content == AnswerText(rounds);
    SendName(ra, content, w, cb, tui);
    ghost var rename := tui.sent[|sent|..];
    AnsweredWithLastReply(ra, rounds, Name(ra, content, w), rename);
    SentBehind(old(tui.sent), Replies(ra, rounds), tui.sent);
  }

  lemma SentBehind(before: seq<Event>, replies: seq<Event>, now: seq<Event>)
    requires |before + replies| <= |now| && now[..|before + replies|] == before + replies
    ensures now[|before|..] == replies + now[|before + replies|..]
  {
    assert now == (before + replies) + now[|before + replies|..];
  }
}
