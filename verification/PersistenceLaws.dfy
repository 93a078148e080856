/** What loading makes of any files, entry by entry and message by message. */
module PersistenceLaws {
  import opened Bytes
  import opened ChatHistory
  import opened JsonLookup
  import opened JsonValue
  import opened Persistence
  import opened Sessions

  /** Places in ascending order, all below `n`. */
  predicate Places(at: seq<nat>, n: nat) {
    && (forall i | 0 <= i < |at| :: at[i] < n)
    && forall i, j | 0 <= i < j < |at| :: at[i] < at[j]
  }

  function Shifted(at: seq<nat>): (later: seq<nat>)
    ensures |later| == |at| && forall i | 0 <= i < |at| :: later[i] == at[i] + 1
  {
    seq(|at|, i requires 0 <= i < |at| => at[i] + 1)
  }

  lemma ShiftedHas(at: seq<nat>, p: nat)
    ensures p in at ==> p + 1 in Shifted(at)
  {
    if p in at {
      var i :| 0 <= i < |at| && at[i] == p;
      assert Shifted(at)[i] == p + 1;
    }
  }

  predicate IsEntry(v: Value) {
    GetInt(v, Ascii("id")).Some? && GetString(v, Ascii("name")).Some?
  }

  /** A session with the id and the name of an entry, and the chat of the file of that id. */
  predicate TakenFrom(s: Session, v: Value, files: map<int, bytes>) {
    && GetInt(v, Ascii("id")) == Some(s.id)
    && GetString(v, Ascii("name")).Some? && s.name == Named(GetString(v, Ascii("name")).value)
    && s.chat == ChatOf(Find(files, s.id))
  }

  /** Behind the sessions `before` come some from the entries at certain places of an index. */
  predicate Filled(before: seq<Session>, after: seq<Session>, vs: seq<Value>, at: seq<nat>, files: map<int, bytes>) {
    && Places(at, |vs|)
    && |after| == |before| + |at| && after[..|before|] == before
    && forall k | 0 <= k < |at| :: TakenFrom(after[|before| + k], vs[at[k]], files)
  }

  /** An entry is left out only when the sessions from the entries in front of it fill the manager. */
  predicate LeftOutWhenFull(after: seq<Session>, vs: seq<Value>, at: seq<nat>) {
    forall p: nat | p < |vs| && p !in at && IsEntry(vs[p]) ::
      |after| == MAX_SESSIONS && forall k | 0 <= k < |at| :: at[k] < p
  }

  /**
    * The sessions there were stay as they are, and behind them come sessions from the entries of the index, in
    * its order. What has no id or no name is passed over; any other entry is taken as long as there is room.
    */
  lemma {:induction false} EntriesTaken(m: Manager, vs: seq<Value>, files: map<int, bytes>) returns (at: seq<nat>)
    requires |m.sessions| <= MAX_SESSIONS
    ensures Filled(m.sessions, LoadEntries(m, vs, files).sessions, vs, at, files)
    ensures LeftOutWhenFull(LoadEntries(m, vs, files).sessions, vs, at)
    ensures |LoadEntries(m, vs, files).sessions| <= MAX_SESSIONS
    ensures LoadEntries(m, vs, files).active == if m.active == -1 && at != [] then |m.sessions| else m.active
    decreases |vs|
  {
    hide GetInt, GetString, Ascii, ChatOf, Find, Named, Filled, LeftOutWhenFull;
    if vs == [] {
      at := [];
      NothingFilled(m.sessions, vs, files);
    } else {
      var (t, full) := AfterEntry(m, vs[0], files);
      if full {
        at := [];
        NothingFilled(m.sessions, vs, files);
      } else {
        var rest := EntriesTaken(t, vs[1..], files);
        var after := LoadEntries(m, vs, files).sessions;
        if IsEntry(vs[0]) {
          at := [0] + Shifted(rest);
          assert t.sessions[..|m.sessions|] == m.sessions;
          FirstTaken(m.sessions, t.sessions[|m.sessions|], after, vs, rest, files);
        } else {
          at := Shifted(rest);
          FirstPassedOver(m.sessions, after, vs, rest, files);
        }
      }
    }
  }

  lemma NothingFilled(before: seq<Session>, vs: seq<Value>, files: map<int, bytes>)
    requires vs == [] || |before| == MAX_SESSIONS
    ensures Filled(before, before, vs, [], files) && LeftOutWhenFull(before, vs, [])
  {
    hide IsEntry, TakenFrom;
  }

  lemma FirstTaken(before: seq<Session>, s: Session, after: seq<Session>, vs: seq<Value>, rest: seq<nat>,
                   files: map<int, bytes>)
    requires vs != [] && TakenFrom(s, vs[0], files)
    requires Filled(before + [s], after, vs[1..], rest, files) && LeftOutWhenFull(after, vs[1..], rest)
    ensures Filled(before, after, vs, [0] + Shifted(rest), files)
    ensures LeftOutWhenFull(after, vs, [0] + Shifted(rest))
  {
    hide IsEntry, TakenFrom;
    var at := [0] + Shifted(rest);
    assert after[..|before|] == (before + [s])[..|before|] == before;
    assert after[|before|] == (before + [s])[|before|] == s;
    forall k | 0 <= k < |at| ensures TakenFrom(after[|before| + k], vs[at[k]], files) {
      if k > 0 {
        assert vs[at[k]] == vs[1..][rest[k - 1]];
        assert TakenFrom(after[|before| + 1 + (k - 1)], vs[1..][rest[k - 1]], files);
      }
    }
    forall p: nat | p < |vs| && p !in at && IsEntry(vs[p])
      ensures |after| == MAX_SESSIONS && forall k | 0 <= k < |at| :: at[k] < p
    {
      assert at[0] == 0;
      assert p !in Shifted(rest);
      ShiftedHas(rest, p - 1);
      assert vs[p] == vs[1..][p - 1];
    }
  }

  lemma FirstPassedOver(before: seq<Session>, after: seq<Session>, vs: seq<Value>, rest: seq<nat>,
                        files: map<int, bytes>)
    requires vs != [] && !IsEntry(vs[0])
    requires Filled(before, after, vs[1..], rest, files) && LeftOutWhenFull(after, vs[1..], rest)
    ensures Filled(before, after, vs, Shifted(rest), files)
    ensures LeftOutWhenFull(after, vs, Shifted(rest))
  {
    hide IsEntry, TakenFrom;
    var at := Shifted(rest);
    forall k | 0 <= k < |at| ensures TakenFrom(after[|before| + k], vs[at[k]], files) {
      assert vs[at[k]] == vs[1..][rest[k]];
    }
    forall p: nat | p < |vs| && p !in at && IsEntry(vs[p])
      ensures |after| == MAX_SESSIONS && forall k | 0 <= k < |at| :: at[k] < p
    {
      ShiftedHas(rest, p - 1);
      assert vs[p] == vs[1..][p - 1];
    }
  }

  /**
    * Loading any index into a manager: its tree, if it has one, gives the sessions, their count and the next id.
    * The first session loaded becomes the active one if there was none.
    */
  lemma LoadedExactly(m: Manager, index: Option<bytes>, files: map<int, bytes>) returns (at: seq<nat>)
    requires |m.sessions| <= MAX_SESSIONS
    ensures var (t, n) := Loaded(m, index, files);
      && n == |at| == |t.sessions| - |m.sessions|
      && (TreeOf(index) == None ==> t == m)
      && (TreeOf(index).Some? ==>
            var root := TreeOf(index).value;
            var vs := Children(GetItem(root, Ascii("sessions")));
            && Filled(m.sessions, t.sessions, vs, at, files) && LeftOutWhenFull(t.sessions, vs, at)
            && t.active == (if m.active == -1 && at != [] then |m.sessions| else m.active)
            && (GetInt(root, Ascii("next_id")) == Some(t.nextId)
                || (GetInt(root, Ascii("next_id")) == None && t.nextId == 1)))
  {
    hide TreeOf, Children, GetItem, GetInt, Ascii, LoadEntries, LeftOutWhenFull, Places, TakenFrom;
    at := [];
    if TreeOf(index).Some? {
      at := EntriesTaken(m, Children(GetItem(TreeOf(index).value, Ascii("sessions"))), files);
    }
  }

  // --- The messages of a file ----------------------------------------------------------------

  predicate IsMessage(v: Value) {
    GetString(v, Ascii("role")).Some? && GetString(v, Ascii("content")).Some?
  }

  /** A message of the user exactly when the role says so, with the content and a reasoning that is not empty. */
  predicate MessageFrom(m: Message, v: Value) {
    && m.text == GetString(v, Ascii("content")) && m.text.Some?
    && (m.isUser <==> GetString(v, Ascii("role")) == Some(Ascii("user")))
    && (m.reasoning == GetString(v, Ascii("reasoning")) || m.reasoning == None)
    && (m.reasoning == None ==> OrEmpty(GetString(v, Ascii("reasoning"))) == [])
    && m.reasoning != Some([])
    && m.toolCalls == [] && m.toolCallId == None
  }

  /** The messages come from certain places of an array: those where a message stands. */
  predicate Chosen(chat: History, vs: seq<Value>, at: seq<nat>) {
    && Places(at, |vs|) && |chat| == |at|
    && (forall k | 0 <= k < |at| :: MessageFrom(chat[k], vs[at[k]]))
    && forall p: nat | p < |vs| :: p in at <==> IsMessage(vs[p])
  }

  /** The elements that are messages, and only they, in their order. */
  lemma {:induction false} MessagesTaken(vs: seq<Value>) returns (at: seq<nat>)
    ensures Chosen(MessagesOf(vs), vs, at)
    decreases |vs|
  {
    hide GetString, Ascii, MessageOf, MessageFrom, IsMessage, Chosen;
    if vs == [] {
      at := [];
      NoMessages();
    } else {
      var last := |vs| - 1;
      assert vs == vs[..last] + [vs[last]];
      at := MessagesTaken(vs[..last]);
      MessageTaken(vs[last]);
      LastChosen(MessagesOf(vs[..last]), MessageOf(vs[last]), vs[..last], vs[last], at);
      if IsMessage(vs[last]) { at := at + [last]; }
    }
  }

  lemma NoMessages()
    ensures Chosen([], [], [])
  {
  }

  lemma LastChosen(chat: History, more: History, vs: seq<Value>, v: Value, at: seq<nat>)
    requires Chosen(chat, vs, at)
    requires if IsMessage(v) then |more| == 1 && MessageFrom(more[0], v) else more == []
    ensures Chosen(chat + more, vs + [v], if IsMessage(v) then at + [|vs|] else at)
  {
    hide MessageFrom, IsMessage;
    var at' := if IsMessage(v) then at + [|vs|] else at;
    var vs' := vs + [v];
    assert forall p | 0 <= p < |vs| :: vs'[p] == vs[p];
    assert vs'[|vs|] == v;
    if IsMessage(v) {
      assert at'[|at|] == |vs|;
      assert forall p: nat :: p in at' <==> p in at || p == |vs|;
    } else {
      assert chat + more == chat;
    }
  }

  lemma MessageTaken(v: Value)
    ensures IsMessage(v) ==> |MessageOf(v)| == 1 && MessageFrom(MessageOf(v)[0], v)
    ensures !IsMessage(v) ==> MessageOf(v) == []
  {
    hide GetString, Ascii;
  }
}
