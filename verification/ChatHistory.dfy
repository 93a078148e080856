/** Chat messages, the growing buffer that holds them, and what a well-formed history is. */
module ChatHistory {
  import opened Bytes

  /** A `char *` that may be NULL is an option. */
  datatype ToolCall = ToolCall(id: Option<bytes>, name: Option<bytes>, arguments: Option<bytes>)

  datatype Message = Message(text: Option<bytes>, isUser: bool, reasoning: Option<bytes>,
                             toolCalls: seq<ToolCall>, toolCallId: Option<bytes>)

  type History = seq<Message>

  function Plain(text: bytes, isUser: bool, reasoning: Option<bytes>): Message {
    Message(Some(text), isUser, NonEmpty(reasoning), [], None)
  }

  function Calls(content: Option<bytes>, reasoning: Option<bytes>, calls: seq<ToolCall>): Message {
    Message(NonEmpty(content), false, NonEmpty(reasoning), calls, None)
  }

  function Result(id: bytes, text: bytes): Message {
    Message(Some(text), false, None, [], Some(id))
  }

  // --- Well-formed histories ---------------------------------------------------------------

  /** One result per call, in order, with the call's id; a missing id counts as empty. */
  predicate AnswersTo(results: History, calls: seq<ToolCall>) {
    && |results| == |calls|
    && forall t | 0 <= t < |calls| ::
         results[t].toolCallId == Some(OrEmpty(calls[t].id)) && results[t].toolCalls == []
  }

  /** Plain messages, and tool-call messages followed at once by their results; no other results. */
  predicate WellFormed(h: History)
    decreases |h|
  {
    h == []
    || (var n := |h[0].toolCalls|;
        && h[0].toolCallId == None
        && 1 + n <= |h|
        && AnswersTo(h[1..1 + n], h[0].toolCalls)
        && WellFormed(h[1 + n..]))
  }

  lemma {:induction false} WellFormedAppend(a: History, b: History)
    requires WellFormed(a) && WellFormed(b)
    ensures WellFormed(a + b)
    decreases |a|
  {
    hide AnswersTo;
    if a == [] {
      assert a + b == b;
    } else {
      var n := |a[0].toolCalls|;
      WellFormedAppend(a[1 + n..], b);
      assert (a + b)[0] == a[0];
      assert (a + b)[1..1 + n] == a[1..1 + n];
      assert (a + b)[1 + n..] == a[1 + n..] + b;
    }
  }

  lemma BlockWellFormed(m: Message, results: History)
    requires m.toolCallId == None && AnswersTo(results, m.toolCalls)
    ensures WellFormed([m] + results)
  {
    var h := [m] + results;
    assert h[1..1 + |m.toolCalls|] == results;
    assert h[1 + |m.toolCalls|..] == [];
  }

  lemma ResultsCallNothing(h: History, i: nat)
    requires WellFormed(h) && 0 < i < |h|
    ensures i <= |h[0].toolCalls| ==> h[i].toolCalls == []
  {
    if i <= |h[0].toolCalls| {
      assert h[1..1 + |h[0].toolCalls|][i - 1] == h[i];
    }
  }

  /** In a well-formed history, the results stand right behind the message that asked for them. */
  lemma {:induction false} AnsweredAtOnce(h: History, i: nat, t: nat)
    requires WellFormed(h) && i < |h| && t < |h[i].toolCalls|
    ensures i + 1 + t < |h| && h[i + 1 + t].toolCallId == Some(OrEmpty(h[i].toolCalls[t].id))
    decreases |h|
  {
    hide AnswersTo;
    var n := |h[0].toolCalls|;
    if i == 0 {
      FirstBlock(h, 1 + t);
    } else {
      ResultsCallNothing(h, i);
      var rest := h[1 + n..];
      assert rest[i - 1 - n] == h[i];
      AnsweredAtOnce(rest, i - 1 - n, t);
      assert rest[i - n + t] == h[i + 1 + t];
    }
  }

  lemma FirstBlock(h: History, i: nat)
    requires WellFormed(h) && 0 < i < |h| && i <= |h[0].toolCalls|
    ensures h[i].toolCallId == Some(OrEmpty(h[0].toolCalls[i - 1].id))
  {
    assert h[1..1 + |h[0].toolCalls|][i - 1] == h[i];
  }

  /** And every result stands behind such a message. */
  lemma {:induction false} ResultIsAsked(h: History, i: nat) returns (j: nat)
    requires WellFormed(h) && i < |h| && h[i].toolCallId.Some?
    ensures j < i <= j + |h[j].toolCalls| && h[i].toolCallId == Some(OrEmpty(h[j].toolCalls[i - j - 1].id))
    decreases |h|
  {
    hide AnswersTo;
    var n := |h[0].toolCalls|;
    if i <= n {
      j := 0;
      FirstBlock(h, i);
    } else {
      var rest := h[1 + n..];
      assert rest[i - 1 - n] == h[i];
      j := ResultIsAsked(rest, i - 1 - n);
      assert rest[j] == h[j + 1 + n];
      j := j + 1 + n;
    }
  }

  // --- The buffer --------------------------------------------------------------------------

  const INITIAL_CAP: nat := 64

  class ChatBuffer {
    var msgs: array<Message>
    var count: nat
    var capacity: nat

    ghost predicate Valid()
      reads this
    {
      capacity == msgs.Length && count <= capacity
    }

    ghost function Contents(): History
      reads this, msgs
      requires Valid()
    {
      msgs[..count]
    }

    /** chat_init. */
    constructor ()
      ensures Valid() && fresh(msgs) && Contents() == []
    {
      msgs := new Message[0];
      count := 0;
      capacity := 0;
    }

    /** chat_ensure_capacity: doubling moves the messages to a new block. */
    method EnsureCapacity()
      requires Valid()
      modifies this
      ensures Valid() && count < capacity && count == old(count) && Contents() == old(Contents())
      ensures old(count < capacity) ==> capacity == old(capacity)
      ensures old(count == capacity) ==> capacity == if old(capacity) == 0 then INITIAL_CAP else 2 * old(capacity)
      ensures msgs == old(msgs) || fresh(msgs)
    {
      if count >= capacity {
        var larger := if capacity != 0 then capacity * 2 else INITIAL_CAP;
        var moved := new Message[larger];
        for i := 0 to count
          modifies moved
          invariant moved[..i] == msgs[..i]
        {
          moved[i] := msgs[i];
        }
        msgs, capacity := moved, larger;
      }
    }

    method Append(m: Message)
      requires Valid()
      modifies this, msgs
      ensures Valid() && Contents() == old(Contents()) + [m]
      ensures msgs == old(msgs) || fresh(msgs)
    {
      EnsureCapacity();
      msgs[count] := m;
      count := count + 1;
      assert msgs[..count] == msgs[..count - 1] + [m];
    }

    /** chat_add. */
    method Add(text: bytes, isUser: bool)
      requires Valid()
      modifies this, msgs
      ensures Valid() && Contents() == old(Contents()) + [Plain(text, isUser, None)]
      ensures msgs == old(msgs) || fresh(msgs)
    {
      Append(Message(Some(text), isUser, None, [], None));
    }

    /** chat_add_r. */
    method AddWithReasoning(text: bytes, isUser: bool, reasoning: Option<bytes>)
      requires Valid()
      modifies this, msgs
      ensures Valid() && Contents() == old(Contents()) + [Plain(text, isUser, reasoning)]
      ensures msgs == old(msgs) || fresh(msgs)
    {
      var kept := if reasoning.Some? && reasoning.value != [] then reasoning else None;
      Append(Message(Some(text), isUser, kept, [], None));
    }

    /** chat_add_tool_calls. */
    method AddToolCalls(content: Option<bytes>, reasoning: Option<bytes>, calls: seq<ToolCall>)
      requires Valid()
      modifies this, msgs
      ensures Valid() && Contents() == old(Contents()) + [Calls(content, reasoning, calls)]
      ensures msgs == old(msgs) || fresh(msgs)
    {
      var text := if content.Some? && content.value != [] then content else None;
      Append(Message(text, false, if reasoning.Some? && reasoning.value != [] then reasoning else None, calls, None));
    }

    /** chat_add_tool_result. */
    method AddToolResult(id: bytes, result: bytes)
      requires Valid()
      modifies this, msgs
      ensures Valid() && Contents() == old(Contents()) + [Result(id, result)]
      ensures msgs == old(msgs) || fresh(msgs)
    {
      Append(Message(Some(result), false, None, [], Some(id)));
    }
  }
}
