/** The session manager: a fixed array of sessions that is filled, shifted and selected in place. */
module Sessions {
  import opened Bytes
  import opened ChatHistory

  const MAX_SESSIONS: nat := 32
  const NAME_MAX: nat := 63

  datatype Session = Session(id: int, name: bytes, chat: History)

  /** What a SessionManager holds: its sessions in order, the active index, the next id. */
  datatype Manager = Manager(sessions: seq<Session>, active: int, nextId: int)

  /** strncpy into a name buffer of 64 bytes. */
  function Named(name: bytes): (n: bytes)
    ensures NulFree(n) && |n| <= NAME_MAX
  {
    Upto(CString(name), NAME_MAX)
  }

  const Empty := Manager([], -1, 1)

  function AfterNew(m: Manager, name: bytes): Manager {
    if |m.sessions| >= MAX_SESSIONS then m
    else Manager(m.sessions + [Session(m.nextId, Named(name), [])],
                 if m.active == -1 then |m.sessions| else m.active, m.nextId + 1)
  }

  function AfterSelect(m: Manager, index: int): Manager {
    if 0 <= index < |m.sessions| then m.(active := index) else m
  }

  function AfterRemove(m: Manager, index: int): Manager {
    if index < 0 || index >= |m.sessions| then m
    else
      var rest := m.sessions[..index] + m.sessions[index + 1..];
      var active :=
        if rest == [] then -1
        else if m.active > index || (m.active == index && index == |rest|) then m.active - 1
        else m.active;
      Manager(rest, active, m.nextId)
  }

  /** The text of a session changes: messages come and go, or it gets another name. */
  function AfterEdit(m: Manager, index: int, name: bytes, chat: History): Manager {
    if 0 <= index < |m.sessions| then
      m.(sessions := m.sessions[index := m.sessions[index].(name := Named(name), chat := chat)])
    else m
  }

  /** A valid index becomes the active one, and nothing else changes; any other index changes nothing. */
  lemma SelectActivates(m: Manager, index: int)
    ensures AfterSelect(m, index).sessions == m.sessions && AfterSelect(m, index).nextId == m.nextId
    ensures 0 <= index < |m.sessions| ==> AfterSelect(m, index).active == index
    ensures !(0 <= index < |m.sessions|) ==> AfterSelect(m, index).active == m.active
  {
  }

  /**
    * A new session comes behind the others, with the next id, the first 63 bytes of its name and no
    * messages; it becomes active when there was none. A full manager stays as it is.
    */
  lemma NewIsLast(m: Manager, name: bytes)
    requires NulFree(name)
    ensures var t := AfterNew(m, name);
      if |m.sessions| < MAX_SESSIONS then
        && |t.sessions| == |m.sessions| + 1 && m.sessions <= t.sessions
        && t.nextId == m.nextId + 1
        && t.active == (if m.active == -1 then |m.sessions| else m.active)
        && var s := t.sessions[|m.sessions|];
        && s.id == m.nextId && s.chat == []
        && s.name <= name && |s.name| == (if |name| < 63 then |name| else 63)
      else t == m
  {
    CStringWhole(name);
  }

  /** An edit changes the name and the messages of one session, and nothing else. */
  lemma EditChangesOne(m: Manager, index: int, name: bytes, chat: History)
    requires NulFree(name) && |name| <= NAME_MAX && 0 <= index < |m.sessions|
    ensures var t := AfterEdit(m, index, name, chat);
      && t.active == m.active && t.nextId == m.nextId && |t.sessions| == |m.sessions|
      && (forall i | 0 <= i < |m.sessions| && i != index :: t.sessions[i] == m.sessions[i])
      && t.sessions[index] == Session(m.sessions[index].id, name, chat)
  {
    CStringWhole(name);
  }

  /** Ids are distinct and were all given out; the active index is valid, or -1 for no sessions. */
  predicate Kept(m: Manager) {
    && |m.sessions| <= MAX_SESSIONS
    && (forall i | 0 <= i < |m.sessions| :: 0 < m.sessions[i].id < m.nextId)
    && (forall i, j | 0 <= i < j < |m.sessions| :: m.sessions[i].id != m.sessions[j].id)
    && (forall i | 0 <= i < |m.sessions| :: NulFree(m.sessions[i].name) && |m.sessions[i].name| <= NAME_MAX)
    && (if m.sessions == [] then m.active == -1 else 0 <= m.active < |m.sessions|)
    && m.nextId > 0
  }

  datatype Op =
    | New(name: bytes)
    | Select(index: int)
    | Remove(index: int)
    | Edit(index: int, name: bytes, chat: History)

  function After(m: Manager, op: Op): Manager {
    match op
    case New(name) => AfterNew(m, name)
    case Select(index) => AfterSelect(m, index)
    case Remove(index) => AfterRemove(m, index)
    case Edit(index, name, chat) => AfterEdit(m, index, name, chat)
  }

  lemma OpKeeps(m: Manager, op: Op)
    requires Kept(m)
    ensures Kept(After(m, op))
  {
    var t := After(m, op);
    if op.Remove? && 0 <= op.index < |m.sessions| {
      forall i | 0 <= i < |t.sessions| ensures t.sessions[i] == m.sessions[if i < op.index then i else i + 1] {
      }
    }
  }

  /**
    * Removing keeps the other sessions in their order, and keeps the same one active; only when the
    * active one goes, its successor, or the last one left, takes its place.
    */
  lemma RemoveKeepsOthers(m: Manager, index: int)
    requires Kept(m) && 0 <= index < |m.sessions|
    ensures var t := AfterRemove(m, index);
      && |t.sessions| == |m.sessions| - 1
      && (forall i | 0 <= i < |t.sessions| :: t.sessions[i] == m.sessions[if i < index then i else i + 1])
      && (m.active != index ==> t.sessions[t.active] == m.sessions[m.active])
      && (m.active == index && index + 1 < |m.sessions| ==> t.sessions[t.active] == m.sessions[index + 1])
      && (m.active == index && index + 1 == |m.sessions| > 1 ==> t.active == |t.sessions| - 1)
  {
    OpKeeps(m, Remove(index));
  }

  function AfterAll(m: Manager, ops: seq<Op>): Manager
    decreases |ops|
  {
    if ops == [] then m else AfterAll(After(m, ops[0]), ops[1..])
  }

  lemma {:induction false} RunKeeps(m: Manager, ops: seq<Op>)
    requires Kept(m)
    ensures Kept(AfterAll(m, ops))
    decreases |ops|
  {
    hide Kept, After;
    if ops != [] {
      OpKeeps(m, ops[0]);
      RunKeeps(After(m, ops[0]), ops[1..]);
    }
  }

  /** No session has this id, and none will get it. */
  predicate Gone(m: Manager, id: int) {
    id < m.nextId && forall i | 0 <= i < |m.sessions| :: m.sessions[i].id != id
  }

  lemma GoneStays(m: Manager, id: int, op: Op)
    requires Gone(m, id)
    ensures Gone(After(m, op), id)
  {
    var t := After(m, op);
    if op.Remove? && 0 <= op.index < |m.sessions| {
      assert forall i | 0 <= i < |t.sessions| :: t.sessions[i] == m.sessions[if i < op.index then i else i + 1];
    }
  }

  /** A session once removed never comes back, whatever follows. */
  lemma {:induction false} RemovedForGood(m: Manager, id: int, ops: seq<Op>)
    requires Gone(m, id)
    ensures Gone(AfterAll(m, ops), id)
    decreases |ops|
  {
    hide Gone, After;
    if ops != [] {
      GoneStays(m, id, ops[0]);
      RemovedForGood(After(m, ops[0]), id, ops[1..]);
    }
  }

  lemma RemovedIsGone(m: Manager, index: int)
    requires Kept(m) && 0 <= index < |m.sessions|
    ensures Gone(AfterRemove(m, index), m.sessions[index].id)
  {
    RemoveKeepsOthers(m, index);
  }

  // --- In place ----------------------------------------------------------------------------

  class SessionManager {
    const sessions: array<Session>
    var count: nat
    var active: int
    var nextId: int

    ghost predicate Valid()
      reads this
    {
      sessions.Length == MAX_SESSIONS && count <= MAX_SESSIONS
    }

    ghost function View(): Manager
      reads this, sessions
      requires Valid()
    {
      Manager(sessions[..count], active, nextId)
    }

    /** sm_init. */
    constructor ()
      ensures Valid() && fresh(sessions) && View() == Empty
    {
      sessions := new Session[MAX_SESSIONS](_ => Session(0, [], []));
      count := 0;
      active := -1;
      nextId := 1;
    }

    /** sm_new_session: the index of the new session, -1 when there is no room. */
    method NewSession(name: bytes) returns (idx: int)
      requires Valid()
      modifies this, sessions
      ensures Valid() && View() == AfterNew(old(View()), name)
      ensures idx == if old(count) == MAX_SESSIONS then -1 else old(count)
      ensures idx >= 0 ==> count == idx + 1
    {
      if count >= MAX_SESSIONS {
        return -1;
      }
      idx := count;
      sessions[idx] := Session(nextId, Named(name), []);
      nextId := nextId + 1;
      count := count + 1;
      if active == -1 {
        active := idx;
      }
      assert sessions[..count] == old(sessions[..count]) + [sessions[idx]];
    }

    /** sm_select. */
    method SelectSession(index: int)
      requires Valid()
      modifies this`active
      ensures Valid() && View() == AfterSelect(old(View()), index)
    {
      if index >= 0 && index < count {
        active := index;
      }
    }

    /** The loop of sm_remove. */
    method ShiftDown(index: nat)
      requires Valid() && index < count
      modifies sessions
      ensures sessions[..count - 1] == old(sessions[..count])[..index] + old(sessions[..count])[index + 1..]
    {
      ghost var before := sessions[..];
      for i := index to count - 1
        invariant forall k | 0 <= k < index :: sessions[k] == before[k]
        invariant forall k | index <= k < i :: sessions[k] == before[k + 1]
        invariant forall k | i <= k < MAX_SESSIONS :: sessions[k] == before[k]
      {
        sessions[i] := sessions[i + 1];
      }
    }

    /** sm_remove: the sessions behind it move down one place. */
    method RemoveSession(index: int) returns (newActive: int)
      requires Valid()
      modifies this, sessions
      ensures Valid() && View() == AfterRemove(old(View()), index) && newActive == active
    {
      if index < 0 || index >= count {
        return active;
      }
      ShiftDown(index);
      count := count - 1;
      if count == 0 {
        active := -1;
        return -1;
      }
      if active > index {
        active := active - 1;
      } else if active == index {
        active := if index < count then index else count - 1;
      }
      return active;
    }
  }
}
