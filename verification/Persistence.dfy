/**
  * Saving and loading sessions: an index file and one file per session id, both JSON text. What is
  * saved is printed by the printer, what is loaded is read by the parser.
  */
module Persistence {
  import opened Bytes
  import opened ChatHistory
  import opened JsonLookup
  import opened JsonPrintSpec
  import opened JsonValue
  import opened Sessions
  import JsonLaws
  import JsonParseSpec
  import JsonParser
  import JsonPrinter
  import JsonRoundTrip

  // --- The trees that are saved --------------------------------------------------------------

  function Field(name: string, v: Value): Member {
    Member(Ascii(name), v)
  }

  /** A message without a text gets no content; the reasoning of a user message is not saved. */
  function MessageValue(m: Message): Value {
    Object([Field("role", String(Ascii(if m.isUser then "user" else "assistant")))]
           + (if m.text.Some? then [Field("content", String(m.text.value))] else [])
           + (if !m.isUser && m.reasoning.Some? then [Field("reasoning", String(m.reasoning.value))] else []))
  }

  function MessageValues(chat: History): (vs: seq<Value>)
    ensures |vs| == |chat| && forall i | 0 <= i < |chat| :: vs[i] == MessageValue(chat[i])
  {
    seq(|chat|, i requires 0 <= i < |chat| => MessageValue(chat[i]))
  }

  function SessionValue(s: Session): Value {
    Object([Field("id", Number(s.id as real)), Field("name", String(s.name)),
            Field("messages", Array(MessageValues(s.chat)))])
  }

  function EntryValue(s: Session): Value {
    Object([Field("id", Number(s.id as real)), Field("name", String(s.name))])
  }

  function EntryValues(sessions: seq<Session>): (vs: seq<Value>)
    ensures |vs| == |sessions| && forall i | 0 <= i < |sessions| :: vs[i] == EntryValue(sessions[i])
  {
    seq(|sessions|, i requires 0 <= i < |sessions| => EntryValue(sessions[i]))
  }

  function IndexValue(m: Manager): Value {
    Object([Field("next_id", Number(m.nextId as real)), Field("sessions", Array(EntryValues(m.sessions)))])
  }

  /** The text of a tree, as cJSON_PrintUnformatted prints it. */
  function Text(v: Value, fp: Format): bytes {
    Print(v, false, 0, fp)
  }

  /** The printer's length limit; a longer text is not printed, and the file stays as it was. */
  predicate TextFits(v: Value, fp: Format) {
    |Text(v, fp)| + 2 <= INT_MAX
  }

  predicate CMessage(m: Message) {
    (m.text.Some? ==> NulFree(m.text.value)) && (m.reasoning.Some? ==> NulFree(m.reasoning.value))
  }

  /** All strings are C strings, and ids are C ints. */
  predicate Saveable(m: Manager) {
    && INT_MIN <= m.nextId <= INT_MAX
    && forall i | 0 <= i < |m.sessions| :: SaveableSession(m.sessions[i])
  }

  predicate SaveableSession(s: Session) {
    && INT_MIN <= s.id <= INT_MAX
    && NulFree(s.name)
    && forall m | m in s.chat :: CMessage(m)
  }

  // --- They are printed and read back ----------------------------------------------------------

  /** A tree whose text can always be printed, but for its length, and is always read back. */
  predicate Sound(v: Value, fp: Format) {
    Readable(v, fp) && CStrings(v) && JsonLaws.NumbersFit(v, fp)
  }

  lemma NamesAreCStrings()
    ensures NulFree(Ascii("id")) && NulFree(Ascii("name")) && NulFree(Ascii("messages"))
    ensures NulFree(Ascii("next_id")) && NulFree(Ascii("sessions"))
    ensures NulFree(Ascii("role")) && NulFree(Ascii("content")) && NulFree(Ascii("reasoning"))
    ensures NulFree(Ascii("user")) && NulFree(Ascii("assistant"))
  {
  }

  lemma {:induction false} SoundItems(items: seq<Value>, n: nat, fp: Format)
    requires forall i | 0 <= i < |items| :: Sound(items[i], fp) && Nesting(items[i]) <= n
    ensures Sound(Array(items), fp) && Nesting(Array(items)) <= n + 1
    ensures ReadableItems(items, fp) && CStringItems(items) && JsonLaws.ItemNumbersFit(items, fp)
    ensures ItemsNesting(items) <= n
  {
    if items != [] {
      SoundItems(items[1..], n, fp);
      assert Sound(items[0], fp);
    }
  }

  lemma {:induction false} SoundMembers(members: seq<Member>, n: nat, fp: Format)
    requires forall i | 0 <= i < |members| ::
      NulFree(members[i].key) && Sound(members[i].value, fp) && Nesting(members[i].value) <= n
    ensures Sound(Object(members), fp) && Nesting(Object(members)) <= n + 1
    ensures ReadableMembers(members, fp) && CStringMembers(members)
    ensures JsonLaws.MemberNumbersFit(members, fp) && MembersNesting(members) <= n
  {
    if members != [] {
      SoundMembers(members[1..], n, fp);
      assert Sound(members[0].value, fp);
    }
  }

  lemma SoundNumber(n: int, fp: Format)
    requires INT_MIN <= n <= INT_MAX
    ensures Sound(Number(n as real), fp) && Nesting(Number(n as real)) == 0
  {
    JsonLaws.IntFits(n as real, fp);
  }

  lemma MessageSound(m: Message, fp: Format)
    requires CMessage(m)
    ensures Sound(MessageValue(m), fp) && Nesting(MessageValue(m)) <= 1
  {
    NamesAreCStrings();
    SoundMembers(MessageValue(m).members, 0, fp);
  }

  lemma EntrySound(s: Session, fp: Format)
    requires SaveableSession(s)
    ensures Sound(EntryValue(s), fp) && Nesting(EntryValue(s)) <= 1
  {
    NamesAreCStrings();
    SoundNumber(s.id, fp);
    SoundMembers(EntryValue(s).members, 0, fp);
  }

  lemma SessionSound(s: Session, fp: Format)
    requires SaveableSession(s)
    ensures Sound(SessionValue(s), fp) && Nesting(SessionValue(s)) <= 3
  {
    NamesAreCStrings();
    SoundNumber(s.id, fp);
    forall i | 0 <= i < |s.chat| ensures Sound(MessageValues(s.chat)[i], fp) && Nesting(MessageValues(s.chat)[i]) <= 1 {
      assert s.chat[i] in s.chat;
      MessageSound(s.chat[i], fp);
    }
    SoundItems(MessageValues(s.chat), 1, fp);
    SoundMembers(SessionValue(s).members, 2, fp);
  }

  lemma IndexSound(m: Manager, fp: Format)
    requires Saveable(m)
    ensures Sound(IndexValue(m), fp) && Nesting(IndexValue(m)) <= 3
  {
    NamesAreCStrings();
    SoundNumber(m.nextId, fp);
    forall i | 0 <= i < |m.sessions|
      ensures Sound(EntryValues(m.sessions)[i], fp) && Nesting(EntryValues(m.sessions)[i]) <= 1
    {
      EntrySound(m.sessions[i], fp);
    }
    SoundItems(EntryValues(m.sessions), 1, fp);
    SoundMembers(IndexValue(m).members, 2, fp);
  }

  /** A text on disk is never empty, and reading it as a C string and parsing it gives the tree. */
  lemma TextIsRead(v: Value, fp: Format)
    requires v.Object? && Sound(v, fp) && Nesting(v) <= 3 && JsonPrinter.GoodFormat(fp)
    ensures JsonPrinter.Printable(v, 0, fp)
    ensures Text(v, fp) != [] && CString(Text(v, fp)) == Text(v, fp)
    ensures JsonParseSpec.Parse(CString(Text(v, fp))) == Some(v)
  {
    hide Print;
    JsonLaws.PrintableExactly(v, 0, fp);
    JsonPrinter.PrintNulFree(v, false, 0, fp);
    CStringWhole(Text(v, fp));
    JsonRoundTrip.RoundTrip(v, false, false, fp);
    NotEmpty(v, fp);
  }

  lemma NotEmpty(v: Value, fp: Format)
    requires v.Object?
    ensures Text(v, fp) != []
  {
  }

  // --- The index is never too long ---------------------------------------------------------------

  lemma {:induction false} QuotedShort(t: bytes)
    ensures |Quoted(t)| <= 6 * |t| + 2
    decreases |t|
  {
    hide EscapedByte;
    if t != [] {
      QuotedShort(t[1..]);
    }
  }

  lemma {:induction false} ItemsShort(items: seq<Value>, depth: nat, k: nat, fp: Format)
    requires forall i | 0 <= i < |items| :: |Print(items[i], false, depth, fp)| <= k
    ensures |PrintItems(items, false, depth, fp)| <= |items| * (k + 1)
    decreases |items|
  {
    hide Print;
    if items != [] {
      ItemsShort(items[1..], depth, k, fp);
      assert |items| * (k + 1) == |items[1..]| * (k + 1) + (k + 1);
    }
  }

  /** An object of two members, by the lengths of their keys and values. */
  lemma PairShort(key: string, v: Value, key': string, v': Value, depth: nat, fp: Format)
    ensures |Print(Object([Field(key, v), Field(key', v')]), false, depth, fp)|
         <= 6 * |key| + 6 * |key'| + |Print(v, false, depth + 1, fp)| + |Print(v', false, depth + 1, fp)| + 9
  {
    hide Quoted, Ascii;
    var ms := [Field(key, v), Field(key', v')];
    assert ms[1..] == [Field(key', v')] && ms[1..][1..] == [];
    QuotedShort(Ascii(key));
    QuotedShort(Ascii(key'));
    LastMemberShort(key', v', depth + 1, fp);
  }

  lemma LastMemberShort(key: string, v: Value, depth: nat, fp: Format)
    ensures |PrintMembers([Field(key, v)], false, depth, fp)| <= 6 * |key| + |Print(v, false, depth, fp)| + 3
  {
    hide Quoted, Ascii, Print;
    QuotedShort(Ascii(key));
    assert [Field(key, v)][1..] == [];
  }

  lemma EntryShort(s: Session, depth: nat, fp: Format)
    requires SaveableSession(s) && |s.name| <= NAME_MAX
    ensures |Print(EntryValue(s), false, depth, fp)| <= 436
  {
    hide PrintMembers, NumberText;
    QuotedShort(s.name);
    JsonLaws.IntFits(s.id as real, fp);
    PairShort("id", Number(s.id as real), "name", String(s.name), depth, fp);
  }

  /** At most 32 names of at most 63 bytes: the index always fits. */
  lemma IndexFits(m: Manager, fp: Format)
    requires Kept(m) && Saveable(m)
    ensures TextFits(IndexValue(m), fp)
  {
    hide PrintItems, PrintMembers, NumberText, EntryValue, SaveableSession;
    forall i | 0 <= i < |m.sessions| ensures |Print(EntryValues(m.sessions)[i], false, 2, fp)| <= 436 {
      EntryShort(m.sessions[i], 2, fp);
    }
    ItemsShort(EntryValues(m.sessions), 2, 436, fp);
    JsonLaws.IntFits(m.nextId as real, fp);
    PairShort("next_id", Number(m.nextId as real), "sessions", Array(EntryValues(m.sessions)), 0, fp);
  }

  // --- Loading ---------------------------------------------------------------------------------

  /** cJSON_ArrayForEach: the elements of an array, the values of an object, nothing else. */
  function Children(o: Option<Value>): (vs: seq<Value>) {
    match o
    case Some(Array(items)) => items
    case Some(Object(members)) => seq(|members|, i requires 0 <= i < |members| => members[i].value)
    case _ => []
  }

  /** (int) of a double: towards zero. */
  function Truncated(d: real): int {
    if d >= 0.0 then d.Floor else -((-d).Floor)
  }

  function GetInt(v: Value, name: bytes): Option<int> {
    match GetItem(v, name)
    case Some(Number(d)) => Some(Truncated(d))
    case _ => None
  }

  /** One saved message; an entry without a role or a content is passed over. */
  function MessageOf(v: Value): History {
    match (GetString(v, Ascii("role")), GetString(v, Ascii("content")))
    case (Some(role), Some(content)) => [Plain(content, role == Ascii("user"), GetString(v, Ascii("reasoning")))]
    case _ => []
  }

  function MessagesOf(vs: seq<Value>): History {
    if vs == [] then [] else MessagesOf(vs[..|vs| - 1]) + MessageOf(vs[|vs| - 1])
  }

  /** The tree in a file, if there is one. */
  function TreeOf(file: Option<bytes>): Option<Value> {
    if file.None? || file.value == [] then None else JsonParseSpec.Parse(CString(file.value))
  }

  function ChatOf(file: Option<bytes>): History {
    match TreeOf(file)
    case None => []
    case Some(root) => MessagesOf(Children(GetItem(root, Ascii("messages"))))
  }

  function Find(files: map<int, bytes>, id: int): Option<bytes> {
    if id in files then Some(files[id]) else None
  }

  /** One entry of the index, and whether the manager was full for it; one without an id or a name is passed over. */
  function AfterEntry(m: Manager, v: Value, files: map<int, bytes>): (Manager, bool) {
    match (GetInt(v, Ascii("id")), GetString(v, Ascii("name")))
    case (Some(id), Some(name)) =>
      if |m.sessions| >= MAX_SESSIONS then (m, true)
      else (WithSession(m, id, name, ChatOf(Find(files, id))), false)
    case _ => (m, false)
  }

  /** The entries of the index, in order, until the manager is full. */
  function LoadEntries(m: Manager, vs: seq<Value>, files: map<int, bytes>): Manager
    decreases |vs|
  {
    if vs == [] then m
    else
      var (t, full) := AfterEntry(m, vs[0], files);
      if full then t else LoadEntries(t, vs[1..], files)
  }

  /** A new session whose id is then replaced by the stored one. */
  function WithSession(m: Manager, id: int, name: bytes, chat: History): Manager {
    AfterNew(m, name).(sessions := m.sessions + [Session(id, Named(name), chat)])
  }

  /** persist_load: the manager after it, and the number of sessions loaded. */
  function Loaded(m: Manager, index: Option<bytes>, files: map<int, bytes>): (Manager, int) {
    match TreeOf(index)
    case None => (m, 0)
    case Some(root) =>
      var next := GetInt(root, Ascii("next_id"));
      var t := LoadEntries(m, Children(GetItem(root, Ascii("sessions"))), files);
      (t.(nextId := if next.Some? then next.value else 1), |t.sessions| - |m.sessions|)
  }

  // --- What a restart keeps --------------------------------------------------------------------

  /** A message as it comes back, or nothing. */
  function RestoredMessage(m: Message): History {
    if m.text.None? then [] else [Plain(m.text.value, m.isUser, if m.isUser then None else m.reasoning)]
  }

  function RestoredChat(chat: History): History {
    if chat == [] then [] else RestoredChat(chat[..|chat| - 1]) + RestoredMessage(chat[|chat| - 1])
  }

  function RestoredSessions(sessions: seq<Session>): (r: seq<Session>)
    ensures |r| == |sessions|
  {
    seq(|sessions|, i requires 0 <= i < |sessions| =>
      Session(sessions[i].id, sessions[i].name, RestoredChat(sessions[i].chat)))
  }

  /** The same sessions with the same ids and names, and the first of them active. */
  function Restored(m: Manager): Manager {
    Manager(RestoredSessions(m.sessions), if m.sessions == [] then -1 else 0, m.nextId)
  }

  /**
    * What comes back has the same sessions in the same order, ids, names and next id included; and it is all
    * the same exactly when every chat is of the kind the TUI makes.
    */
  lemma RestoredExactly(m: Manager)
    ensures var r := Restored(m);
      && r.nextId == m.nextId && |r.sessions| == |m.sessions|
      && r.active == (if m.sessions == [] then -1 else 0)
      && (forall i | 0 <= i < |m.sessions| ::
            r.sessions[i].id == m.sessions[i].id && r.sessions[i].name == m.sessions[i].name)
      && (r.sessions == m.sessions <==>
          forall i, msg | 0 <= i < |m.sessions| && msg in m.sessions[i].chat :: FromTui(msg))
  {
    hide FromTui, RestoredChat;
    var r := Restored(m);
    forall i | 0 <= i < |m.sessions|
      ensures r.sessions[i] == m.sessions[i] <==> forall msg | msg in m.sessions[i].chat :: FromTui(msg)
    {
      ChatComesBackExactly(m.sessions[i].chat);
    }
    if r.sessions == m.sessions {
      forall i, msg | 0 <= i < |m.sessions| && msg in m.sessions[i].chat ensures FromTui(msg) {
        assert r.sessions[i] == m.sessions[i];
      }
    }
  }

  /** What the chat functions of the TUI make: a text, and a reasoning of the assistant only. */
  predicate FromTui(m: Message) {
    && m.text.Some? && m.toolCalls == [] && m.toolCallId == None
    && m.reasoning != Some([]) && (m.isUser ==> m.reasoning == None)
  }

  /** A chat comes back unchanged exactly when all its messages are of that kind. */
  lemma {:induction false} ChatComesBackExactly(chat: History)
    ensures |RestoredChat(chat)| <= |chat|
    ensures RestoredChat(chat) == chat <==> forall m | m in chat :: FromTui(m)
  {
    if chat != [] {
      var k := |chat| - 1;
      ChatComesBackExactly(chat[..k]);
      assert chat == chat[..k] + [chat[k]];
      assert forall m :: m in chat <==> m in chat[..k] || m == chat[k];
      SplitLast(RestoredChat(chat[..k]), RestoredMessage(chat[k]), chat);
      assert RestoredMessage(chat[k]) == [chat[k]] <==> FromTui(chat[k]);
    }
  }

  lemma SplitLast(a: History, b: History, chat: History)
    requires chat != [] && |a| < |chat| && |b| <= 1
    ensures a + b == chat <==> a == chat[..|chat| - 1] && b == [chat[|chat| - 1]]
  {
    if a + b == chat {
      assert a == (a + b)[..|a|];
      assert b == (a + b)[|a|..];
    } else {
      assert chat == chat[..|chat| - 1] + [chat[|chat| - 1]];
    }
  }

  /** The index and the files after saving all. */
  function SavedIndex(m: Manager, index: Option<bytes>, fp: Format): Option<bytes> {
    if TextFits(IndexValue(m), fp) then Some(Text(IndexValue(m), fp)) else index
  }

  function SavedSession(s: Session, files: map<int, bytes>, fp: Format): map<int, bytes> {
    if TextFits(SessionValue(s), fp) then files[s.id := Text(SessionValue(s), fp)] else files
  }

  function SavedFiles(sessions: seq<Session>, files: map<int, bytes>, fp: Format): map<int, bytes> {
    if sessions == [] then files
    else SavedSession(sessions[|sessions| - 1], SavedFiles(sessions[..|sessions| - 1], files, fp), fp)
  }

  /** The printer has room for every session. */
  predicate AllFit(m: Manager, fp: Format) {
    forall i | 0 <= i < |m.sessions| :: TextFits(SessionValue(m.sessions[i]), fp)
  }

  lemma {:induction false} SavedIsFound(sessions: seq<Session>, files: map<int, bytes>, fp: Format, i: nat)
    requires forall j | 0 <= j < |sessions| :: TextFits(SessionValue(sessions[j]), fp)
    requires forall j, k | 0 <= j < k < |sessions| :: sessions[j].id != sessions[k].id
    requires i < |sessions|
    ensures Find(SavedFiles(sessions, files, fp), sessions[i].id) == Some(Text(SessionValue(sessions[i]), fp))
  {
    hide Text, TextFits;
    var k := |sessions| - 1;
    if i < k {
      SavedIsFound(sessions[..k], files, fp, i);
      assert sessions[i].id != sessions[k].id;
    }
  }

  // --- Loading what was saved ------------------------------------------------------------------

  lemma LookupFirst(n: string, v: Value, rest: seq<Member>, name: bytes)
    requires NulFree(Ascii(n))
    ensures Lookup([Field(n, v)] + rest, name) == if Ascii(n) == name then Some(v) else Lookup(rest, name)
  {
    CStringWhole(Ascii(n));
    assert ([Field(n, v)] + rest)[1..] == rest;
  }

  lemma LookupOnly(n: string, v: Value, name: bytes)
    requires NulFree(Ascii(n))
    ensures Lookup([Field(n, v)], name) == if Ascii(n) == name then Some(v) else None
  {
    LookupFirst(n, v, [], name);
    assert [Field(n, v)] + [] == [Field(n, v)];
  }

  lemma NamesDiffer()
    ensures |Ascii("id")| == 2 && |Ascii("name")| == |Ascii("role")| == 4
    ensures |Ascii("content")| == |Ascii("next_id")| == 7
    ensures |Ascii("messages")| == |Ascii("sessions")| == 8 && |Ascii("reasoning")| == 9
    ensures Ascii("user") != Ascii("assistant")
  {
    assert |Ascii("user")| == 4 && |Ascii("assistant")| == 9;
  }

  /** The members of a saved message, looked up one by one. */
  lemma MessageFields(m: Message)
    ensures var ms := MessageValue(m).members;
      && Lookup(ms, Ascii("role")) == Some(String(Ascii(if m.isUser then "user" else "assistant")))
      && Lookup(ms, Ascii("content")) == (if m.text.Some? then Some(String(m.text.value)) else None)
      && Lookup(ms, Ascii("reasoning"))
         == (if !m.isUser && m.reasoning.Some? then Some(String(m.reasoning.value)) else None)
  {
    hide Ascii, Lookup;
    NamesAreCStrings();
    NamesDiffer();
    var role := String(Ascii(if m.isUser then "user" else "assistant"));
    var content := if m.text.Some? then [Field("content", String(m.text.value))] else [];
    var reasoning := if !m.isUser && m.reasoning.Some? then [Field("reasoning", String(m.reasoning.value))] else [];
    assert MessageValue(m).members == [Field("role", role)] + (content + reasoning);
    forall name: bytes
      ensures Lookup(MessageValue(m).members, name)
           == if Ascii("role") == name then Some(role) else Lookup(content + reasoning, name)
    {
      LookupFirst("role", role, content + reasoning, name);
    }
    OptionalFields(m.text, if m.isUser then None else m.reasoning);
  }

  lemma OptionalFields(text: Option<bytes>, rsn: Option<bytes>)
    ensures var content := if text.Some? then [Field("content", String(text.value))] else [];
      var reasoning := if rsn.Some? then [Field("reasoning", String(rsn.value))] else [];
      && Lookup(content + reasoning, Ascii("content")) == (if text.Some? then Some(String(text.value)) else None)
      && Lookup(content + reasoning, Ascii("reasoning")) == (if rsn.Some? then Some(String(rsn.value)) else None)
  {
    hide Ascii;
    NamesAreCStrings();
    NamesDiffer();
    var reasoning := if rsn.Some? then [Field("reasoning", String(rsn.value))] else [];
    if rsn.Some? {
      LookupOnly("reasoning", String(rsn.value), Ascii("reasoning"));
      LookupOnly("reasoning", String(rsn.value), Ascii("content"));
    }
    if text.Some? {
      LookupFirst("content", String(text.value), reasoning, Ascii("reasoning"));
      LookupFirst("content", String(text.value), reasoning, Ascii("content"));
    } else {
      assert [] + reasoning == reasoning;
    }
  }

  lemma MessageRead(m: Message)
    requires CMessage(m)
    ensures MessageOf(MessageValue(m)) == RestoredMessage(m)
  {
    hide Ascii, Lookup, MessageValue, CString;
    NamesAreCStrings();
    NamesDiffer();
    MessageFields(m);
    assert MessageValue(m).Object? by { MessageIsObject(m); }
    CStringWhole(Ascii(if m.isUser then "user" else "assistant"));
    if m.text.Some? { CStringWhole(m.text.value); }
    if m.reasoning.Some? { CStringWhole(m.reasoning.value); }
  }

  lemma MessageIsObject(m: Message)
    ensures MessageValue(m).Object?
  {
  }

  lemma {:induction false} ChatRead(chat: History)
    requires forall m | m in chat :: CMessage(m)
    ensures MessagesOf(MessageValues(chat)) == RestoredChat(chat)
  {
    hide MessageValue, MessageOf, RestoredMessage, CMessage;
    if chat != [] {
      var k := |chat| - 1;
      assert MessageValues(chat)[..k] == MessageValues(chat[..k]);
      ChatRead(chat[..k]);
      MessageRead(chat[k]);
    }
  }

  /** The fields of a saved session, of an index entry, and of the index. */
  lemma SessionFields(s: Session)
    ensures GetItem(SessionValue(s), Ascii("messages")) == Some(Array(MessageValues(s.chat)))
  {
    hide Ascii, Lookup;
    NamesAreCStrings();
    NamesDiffer();
    var messages := Array(MessageValues(s.chat));
    var id, name := Field("id", Number(s.id as real)), Field("name", String(s.name));
    LookupOnly("messages", messages, Ascii("messages"));
    LookupFirst("name", String(s.name), [Field("messages", messages)], Ascii("messages"));
    LookupFirst("id", Number(s.id as real), [name] + [Field("messages", messages)], Ascii("messages"));
    assert SessionValue(s).members == [id] + ([name] + [Field("messages", messages)]);
  }

  lemma EntryFields(s: Session)
    requires NulFree(s.name)
    ensures GetInt(EntryValue(s), Ascii("id")) == Some(s.id) && GetString(EntryValue(s), Ascii("name")) == Some(s.name)
  {
    hide Ascii, Lookup, CString;
    NamesAreCStrings();
    NamesDiffer();
    CStringWhole(s.name);
    var name := [Field("name", String(s.name))];
    LookupOnly("name", String(s.name), Ascii("name"));
    LookupFirst("id", Number(s.id as real), name, Ascii("id"));
    LookupFirst("id", Number(s.id as real), name, Ascii("name"));
    assert EntryValue(s).members == [Field("id", Number(s.id as real))] + name;
  }

  lemma IndexFields(m: Manager)
    ensures GetInt(IndexValue(m), Ascii("next_id")) == Some(m.nextId)
    ensures GetItem(IndexValue(m), Ascii("sessions")) == Some(Array(EntryValues(m.sessions)))
  {
    hide Ascii, Lookup;
    NamesAreCStrings();
    NamesDiffer();
    var sessions := [Field("sessions", Array(EntryValues(m.sessions)))];
    LookupOnly("sessions", Array(EntryValues(m.sessions)), Ascii("sessions"));
    LookupFirst("next_id", Number(m.nextId as real), sessions, Ascii("next_id"));
    LookupFirst("next_id", Number(m.nextId as real), sessions, Ascii("sessions"));
    assert IndexValue(m).members == [Field("next_id", Number(m.nextId as real))] + sessions;
  }

  lemma SessionRead(s: Session, fp: Format)
    requires SaveableSession(s) && JsonPrinter.GoodFormat(fp)
    ensures ChatOf(Some(Text(SessionValue(s), fp))) == RestoredChat(s.chat)
  {
    hide Text, SessionValue, CMessage;
    SessionSound(s, fp);
    assert SessionValue(s).Object? by { SessionIsObject(s); }
    TextIsRead(SessionValue(s), fp);
    SessionFields(s);
    ChatRead(s.chat);
  }

  lemma SessionIsObject(s: Session)
    ensures SessionValue(s).Object?
  {
  }

  /** The sessions of an index, with whatever chats the files hold for them. */
  function LoadedSessions(sessions: seq<Session>, files: map<int, bytes>): (r: seq<Session>)
    ensures |r| == |sessions|
  {
    seq(|sessions|, i requires 0 <= i < |sessions| =>
      Session(sessions[i].id, sessions[i].name, ChatOf(Find(files, sessions[i].id))))
  }

  /** The entries from `k` on, loaded behind the sessions before them. */
  lemma {:induction false} EntriesLoad(m: Manager, sessions: seq<Session>, k: nat, files: map<int, bytes>)
    requires k <= |sessions| <= MAX_SESSIONS
    requires forall i | 0 <= i < |sessions| :: NulFree(sessions[i].name) && |sessions[i].name| <= NAME_MAX
    requires m.sessions == LoadedSessions(sessions, files)[..k] && m.active == if k == 0 then -1 else 0
    ensures var t := LoadEntries(m, EntryValues(sessions)[k..], files);
      t.sessions == LoadedSessions(sessions, files) && t.active == if sessions == [] then -1 else 0
    decreases |sessions| - k
  {
    hide EntryValue, ChatOf, Find, GetInt, GetString, Named, CString, Ascii;
    if k < |sessions| {
      var s := sessions[k];
      assert EntryValues(sessions)[k..][0] == EntryValue(s);
      assert EntryValues(sessions)[k..][1..] == EntryValues(sessions)[k + 1..];
      EntryFields(s);
      NamedWhole(s.name);
      var t := WithSession(m, s.id, s.name, ChatOf(Find(files, s.id)));
      assert t.sessions == LoadedSessions(sessions, files)[..k + 1];
      EntriesLoad(t, sessions, k + 1, files);
    } else {
      assert EntryValues(sessions)[k..] == [];
      assert LoadedSessions(sessions, files)[..k] == LoadedSessions(sessions, files);
    }
  }

  lemma NamedWhole(name: bytes)
    requires NulFree(name) && |name| <= NAME_MAX
    ensures Named(name) == name
  {
    CStringWhole(name);
  }

  /** A saved index brings back the ids, the names and the next id, whatever the session files hold. */
  lemma IndexLoads(m: Manager, files: map<int, bytes>, fp: Format)
    requires Kept(m) && Saveable(m) && JsonPrinter.GoodFormat(fp)
    ensures Loaded(Empty, Some(Text(IndexValue(m), fp)), files)
         == (Manager(LoadedSessions(m.sessions, files), if m.sessions == [] then -1 else 0, m.nextId), |m.sessions|)
  {
    hide IndexValue, EntryValues, LoadEntries, TreeOf, GetInt, GetItem, Ascii, Text, Saveable, Find;
    IndexIsRead(m, fp);
    IndexFields(m);
    EntriesLoad(Empty, m.sessions, 0, files);
    assert EntryValues(m.sessions)[0..] == EntryValues(m.sessions);
  }

  lemma IndexIsRead(m: Manager, fp: Format)
    requires Saveable(m) && JsonPrinter.GoodFormat(fp)
    ensures TreeOf(Some(Text(IndexValue(m), fp))) == Some(IndexValue(m))
  {
    hide Text, IndexValue;
    IndexSound(m, fp);
    assert IndexValue(m).Object? by { IndexIsObject(m); }
    TextIsRead(IndexValue(m), fp);
  }

  /**
    * Loading into a fresh manager what was saved restores every session with its id, its name and its
    * messages, in order, and the next id, whatever was on disk before.
    */
  lemma LoadAfterSave(m: Manager, index: Option<bytes>, files: map<int, bytes>, fp: Format)
    requires Kept(m) && Saveable(m) && JsonPrinter.GoodFormat(fp) && AllFit(m, fp)
    ensures Loaded(Empty, SavedIndex(m, index, fp), SavedFiles(m.sessions, files, fp)) == (Restored(m), |m.sessions|)
  {
    hide SavedFiles, IndexValue, Text, TextFits, SessionValue, Loaded;
    IndexFits(m, fp);
    IndexLoads(m, SavedFiles(m.sessions, files, fp), fp);
    SavedChatsLoad(m, files, fp);
  }

  lemma SavedChatsLoad(m: Manager, files: map<int, bytes>, fp: Format)
    requires Kept(m) && Saveable(m) && JsonPrinter.GoodFormat(fp) && AllFit(m, fp)
    ensures LoadedSessions(m.sessions, SavedFiles(m.sessions, files, fp)) == RestoredSessions(m.sessions)
  {
    hide Text, TextFits, SessionValue, SavedFiles, IndexValue, ChatOf, Find, RestoredChat;
    var saved := SavedFiles(m.sessions, files, fp);
    forall i | 0 <= i < |m.sessions|
      ensures ChatOf(Find(saved, m.sessions[i].id)) == RestoredChat(m.sessions[i].chat)
    {
      SavedIsFound(m.sessions, files, fp, i);
      SessionRead(m.sessions[i], fp);
    }
  }

  lemma IndexIsObject(m: Manager)
    ensures IndexValue(m).Object?
  {
  }

  // --- Runs with restarts ----------------------------------------------------------------------

  /** The manager, and what is on disk. */
  datatype State = State(m: Manager, index: Option<bytes>, files: map<int, bytes>)

  /** An operation, a save of everything or of one session, the removal of a file, or a fresh start from the disk. */
  datatype Event =
    | Does(op: Op)
    | SavesAll
    | SavesOne(index: int)
    | Deletes(id: int)
    | Restarts

  function AfterEvent(s: State, e: Event, fp: Format): State {
    match e
    case Does(op) => s.(m := After(s.m, op))
    case SavesAll => State(s.m, SavedIndex(s.m, s.index, fp), SavedFiles(s.m.sessions, s.files, fp))
    case SavesOne(i) => if 0 <= i < |s.m.sessions| then s.(files := SavedSession(s.m.sessions[i], s.files, fp)) else s
    case Deletes(id) => s.(files := s.files - {id})
    case Restarts => s.(m := Loaded(Empty, s.index, s.files).0)
  }

  function AfterEvents(s: State, es: seq<Event>, fp: Format): State
    decreases |es|
  {
    if es == [] then s else AfterEvents(AfterEvent(s, es[0], fp), es[1..], fp)
  }

  /** Ids do not wrap, and chats are made of C strings. */
  predicate OpAllowed(m: Manager, op: Op) {
    && (op.New? ==> m.nextId < INT_MAX)
    && (op.Edit? ==> forall msg | msg in op.chat :: CMessage(msg))
  }

  predicate AllAllowed(s: State, es: seq<Event>, fp: Format)
    decreases |es|
  {
    es == [] || ((es[0].Does? ==> OpAllowed(s.m, es[0].op)) && AllAllowed(AfterEvent(s, es[0], fp), es[1..], fp))
  }

  /** The index on disk was saved by some manager that met the invariants. */
  ghost predicate Indexed(index: Option<bytes>, fp: Format) {
    index.Some? ==> exists m :: Kept(m) && Saveable(m) && index.value == Text(IndexValue(m), fp)
  }

  ghost predicate Healthy(s: State, fp: Format) {
    Kept(s.m) && Saveable(s.m) && Indexed(s.index, fp)
  }

  lemma NextIdPositive(m: Manager)
    requires Kept(m)
    ensures m.nextId > 0
  {
  }

  lemma OpSaveable(m: Manager, op: Op)
    requires Saveable(m) && m.nextId > 0 && OpAllowed(m, op)
    ensures Saveable(After(m, op))
  {
    hide CMessage;
  }

  lemma {:induction false} LoadedMessagesAreC(vs: seq<Value>)
    ensures forall m | m in MessagesOf(vs) :: CMessage(m)
  {
    if vs != [] {
      LoadedMessagesAreC(vs[..|vs| - 1]);
    }
  }

  /** Starting afresh from a saved index gives a manager that meets the invariants, whatever is in the session files. */
  lemma RestartKeeps(s: State, fp: Format)
    requires Healthy(s, fp) && JsonPrinter.GoodFormat(fp)
    ensures Healthy(AfterEvent(s, Restarts, fp), fp)
  {
    hide Text, IndexValue, Loaded;
    var t := AfterEvent(s, Restarts, fp);
    if s.index.None? {
      assert t.m == Empty by { NothingLoads(s.files); }
    } else {
      var m :| Kept(m) && Saveable(m) && s.index.value == Text(IndexValue(m), fp);
      IndexLoads(m, s.files, fp);
      LoadedKeeps(m, s.files);
    }
  }

  lemma NothingLoads(files: map<int, bytes>)
    ensures Loaded(Empty, None, files) == (Empty, 0)
  {
  }

  lemma LoadedKeeps(m: Manager, files: map<int, bytes>)
    requires Kept(m) && Saveable(m)
    ensures var t := Manager(LoadedSessions(m.sessions, files), if m.sessions == [] then -1 else 0, m.nextId);
      Kept(t) && Saveable(t)
  {
    hide ChatOf, Find, CMessage;
    forall i | 0 <= i < |m.sessions|
      ensures forall msg | msg in ChatOf(Find(files, m.sessions[i].id)) :: CMessage(msg)
    {
      LoadedChatIsC(Find(files, m.sessions[i].id));
    }
  }

  lemma LoadedChatIsC(file: Option<bytes>)
    ensures forall m | m in ChatOf(file) :: CMessage(m)
  {
    hide MessagesOf, CMessage;
    var root := TreeOf(file);
    if root.Some? {
      LoadedMessagesAreC(Children(GetItem(root.value, Ascii("messages"))));
    }
  }

  lemma EventKeeps(s: State, e: Event, fp: Format)
    requires Healthy(s, fp) && JsonPrinter.GoodFormat(fp) && (e.Does? ==> OpAllowed(s.m, e.op))
    ensures Healthy(AfterEvent(s, e, fp), fp)
  {
    hide Text, IndexValue, Loaded, TextFits, SavedFiles, SavedSession;
    match e
    case Does(op) =>
      OpKeeps(s.m, op);
      OpSaveable(s.m, op);
    case SavesAll =>
    case SavesOne(_) =>
    case Deletes(_) =>
    case Restarts => RestartKeeps(s, fp);
  }

  /**
    * In every run of operations, saves, deletions of files and fresh starts from whatever is on disk,
    * ids stay distinct and below the next one, the active index is valid, and everything can be saved.
    */
  lemma {:induction false} LifeKeeps(s: State, es: seq<Event>, fp: Format)
    requires Healthy(s, fp) && JsonPrinter.GoodFormat(fp) && AllAllowed(s, es, fp)
    ensures Healthy(AfterEvents(s, es, fp), fp)
    decreases |es|
  {
    hide Healthy, AfterEvent, OpAllowed;
    if es != [] {
      EventKeeps(s, es[0], fp);
      LifeKeeps(AfterEvent(s, es[0], fp), es[1..], fp);
    }
  }

  /** The first start, with any files lying about but no index. */
  lemma FirstStart(files: map<int, bytes>, fp: Format)
    ensures Healthy(State(Empty, None, files), fp)
  {
  }

  /** Wherever a run has got to, saving all and starting afresh gives back the same sessions. */
  lemma RestartRestores(files: map<int, bytes>, es: seq<Event>, fp: Format)
    requires JsonPrinter.GoodFormat(fp) && AllAllowed(State(Empty, None, files), es, fp)
    requires AllFit(AfterEvents(State(Empty, None, files), es, fp).m, fp)
    ensures var s := AfterEvents(State(Empty, None, files), es, fp);
      && Kept(s.m)
      && AfterEvent(AfterEvent(s, SavesAll, fp), Restarts, fp).m == Restored(s.m)
  {
    hide Kept, Saveable, AllFit, Loaded, Restored, SavedIndex, SavedFiles, Indexed;
    FirstStart(files, fp);
    LifeKeeps(State(Empty, None, files), es, fp);
    var s := AfterEvents(State(Empty, None, files), es, fp);
    LoadAfterSave(s.m, s.index, s.files, fp);
  }

  lemma {:induction false} NotSaved(sessions: seq<Session>, files: map<int, bytes>, fp: Format, id: int)
    requires id !in files && forall i | 0 <= i < |sessions| :: sessions[i].id != id
    ensures id !in SavedFiles(sessions, files, fp)
  {
    hide Text, TextFits;
    if sessions != [] {
      NotSaved(sessions[..|sessions| - 1], files, fp, id);
    }
  }

  /** What do_delete_session selects: what the removal left active, or a line of the sidebar that exists. */
  function Selected(m: Manager, left: int, sidebar: int): int {
    if left >= 0 then left else if sidebar >= |m.sessions| then |m.sessions| - 1 else sidebar
  }

  /** The session goes, then its file; an empty manager gets a new session. */
  function AfterForgetting(s: State, i: nat, fp: Format): State
    requires i < |s.m.sessions|
  {
    var r := AfterEvent(AfterEvent(s, Does(Remove(i)), fp), Deletes(s.m.sessions[i].id), fp);
    if r.m.sessions == [] then AfterEvent(r, Does(New(Ascii("Chat 1"))), fp) else r
  }

  /** do_delete_session: then another session is selected, and all is saved. */
  function AfterDeletion(s: State, i: nat, sidebar: int, fp: Format): State
    requires i < |s.m.sessions|
  {
    var n := AfterForgetting(s, i, fp);
    AfterEvent(AfterEvent(n, Does(Select(Selected(n.m, After(s.m, Remove(i)).active, sidebar))), fp), SavesAll, fp)
  }

  /** Neither a session nor a file has the id, and none in memory will get it. */
  predicate Absent(s: State, id: int) {
    Gone(s.m, id) && id !in s.files
  }

  /** And none will get it by way of the index on disk. */
  ghost predicate Erased(s: State, id: int, fp: Format) {
    && Absent(s, id) && s.index.Some?
    && exists m :: Kept(m) && Saveable(m) && Gone(m, id) && s.index.value == Text(IndexValue(m), fp)
  }

  lemma AbsentStays(s: State, id: int, e: Event, fp: Format)
    requires Absent(s, id) && !e.Restarts?
    ensures Absent(AfterEvent(s, e, fp), id)
  {
    hide Text, TextFits, SessionValue, IndexValue;
    match e
    case Does(op) => GoneStays(s.m, id, op);
    case SavesAll => NotSaved(s.m.sessions, s.files, fp, id);
    case _ =>
  }

  /** A fresh start keeps out what is in neither the index nor a file. */
  lemma ErasedStays(s: State, id: int, e: Event, fp: Format)
    requires Healthy(s, fp) && Erased(s, id, fp) && JsonPrinter.GoodFormat(fp)
    ensures Erased(AfterEvent(s, e, fp), id, fp)
  {
    hide Kept, Saveable, Text, TextFits, IndexValue, SavedFiles, SavedSession, Loaded, After;
    var m :| Kept(m) && Saveable(m) && Gone(m, id) && s.index.value == Text(IndexValue(m), fp);
    if e.Restarts? {
      IndexLoads(m, s.files, fp);
    } else {
      AbsentStays(s, id, e, fp);
    }
  }

  lemma {:induction false} ErasedForGood(s: State, id: int, es: seq<Event>, fp: Format)
    requires Healthy(s, fp) && Erased(s, id, fp) && JsonPrinter.GoodFormat(fp) && AllAllowed(s, es, fp)
    ensures Healthy(AfterEvents(s, es, fp), fp) && Erased(AfterEvents(s, es, fp), id, fp)
    decreases |es|
  {
    hide Healthy, Erased, AfterEvent, OpAllowed;
    if es != [] {
      EventKeeps(s, es[0], fp);
      ErasedStays(s, id, es[0], fp);
      ErasedForGood(AfterEvent(s, es[0], fp), id, es[1..], fp);
    }
  }

  lemma DeletionErases(s: State, i: nat, sidebar: int, fp: Format)
    requires Healthy(s, fp) && JsonPrinter.GoodFormat(fp) && i < |s.m.sessions|
    requires |s.m.sessions| == 1 ==> s.m.nextId < INT_MAX
    ensures var t := AfterDeletion(s, i, sidebar, fp);
      Healthy(t, fp) && Erased(t, s.m.sessions[i].id, fp)
  {
    hide Kept, Saveable, Indexed, Gone, Text, TextFits, IndexValue, SavedFiles, SavedSession;
    var id := s.m.sessions[i].id;
    var r := AfterEvent(s, Does(Remove(i)), fp);
    EventKeeps(s, Does(Remove(i)), fp);
    RemovedIsGone(s.m, i);
    var d := AfterEvent(r, Deletes(id), fp);
    EventKeeps(r, Deletes(id), fp);
    var n := if d.m.sessions == [] then AfterEvent(d, Does(New(Ascii("Chat 1"))), fp) else d;
    if d.m.sessions == [] {
      EventKeeps(d, Does(New(Ascii("Chat 1"))), fp);
      AbsentStays(d, id, Does(New(Ascii("Chat 1"))), fp);
    }
    var select := Does(Select(Selected(n.m, r.m.active, sidebar)));
    EventKeeps(n, select, fp);
    AbsentStays(n, id, select, fp);
    IndexFits(AfterEvent(n, select, fp).m, fp);
    EventKeeps(AfterEvent(n, select, fp), SavesAll, fp);
    AbsentStays(AfterEvent(n, select, fp), id, SavesAll, fp);
  }

  /**
    * A deleted session stays deleted: whatever operations, saves, deletions and fresh starts follow, no
    * session and no file has its id, and none ever gets it; saving all and starting afresh brings back
    * the others.
    */
  lemma DeletedStaysDeleted(s: State, i: nat, sidebar: int, es: seq<Event>, fp: Format)
    requires Healthy(s, fp) && JsonPrinter.GoodFormat(fp) && i < |s.m.sessions|
    requires |s.m.sessions| == 1 ==> s.m.nextId < INT_MAX
    requires AllAllowed(AfterDeletion(s, i, sidebar, fp), es, fp)
    ensures var u := AfterEvents(AfterDeletion(s, i, sidebar, fp), es, fp);
      && Absent(u, s.m.sessions[i].id)
      && (AllFit(u.m, fp) ==> AfterEvent(AfterEvent(u, SavesAll, fp), Restarts, fp).m == Restored(u.m))
  {
    hide Kept, Saveable, AllFit, Loaded, Restored, SavedIndex, SavedFiles, Indexed, Absent, AfterDeletion, Gone;
    var t := AfterDeletion(s, i, sidebar, fp);
    DeletionErases(s, i, sidebar, fp);
    ErasedForGood(t, s.m.sessions[i].id, es, fp);
    var u := AfterEvents(t, es, fp);
    if AllFit(u.m, fp) {
      LoadAfterSave(u.m, u.index, u.files, fp);
    }
  }

  /**
    * After a deletion the other sessions are there in their order, and the one that was active still is, or the
    * one behind it in its place, or the last. A manager left empty has one new session, and it is active.
    */
  lemma DeletionSelects(s: State, i: nat, sidebar: int, fp: Format)
    requires Kept(s.m) && i < |s.m.sessions|
    ensures var t := AfterDeletion(s, i, sidebar, fp).m;
      if |s.m.sessions| > 1 then
        && |t.sessions| == |s.m.sessions| - 1
        && (forall k | 0 <= k < |t.sessions| :: t.sessions[k] == s.m.sessions[if k < i then k else k + 1])
        && (s.m.active != i ==> t.sessions[t.active] == s.m.sessions[s.m.active])
        && (s.m.active == i ==> t.active == if i < |t.sessions| then i else i - 1)
      else
        t.sessions == [Session(s.m.nextId, Ascii("Chat 1"), [])] && t.active == 0
  {
    hide AfterDeletion, Ascii, Kept;
    DeletionInMemory(s, i, sidebar, fp);
    RemoveKeepsOthers(s.m, i);
    assert |s.m.sessions| > 1 ==> 0 <= AfterRemove(s.m, i).active by { RemovedActive(s.m, i); }
    if |s.m.sessions| == 1 {
      assert NulFree(Ascii("Chat 1")) && |Ascii("Chat 1")| == 6 by { DefaultName(); }
      CStringWhole(Ascii("Chat 1"));
    }
  }

  lemma DeletionInMemory(s: State, i: nat, sidebar: int, fp: Format)
    requires i < |s.m.sessions|
    ensures var r := AfterRemove(s.m, i);
      var n := if r.sessions == [] then AfterNew(r, Ascii("Chat 1")) else r;
      AfterDeletion(s, i, sidebar, fp).m == AfterSelect(n, Selected(n, r.active, sidebar))
  {
    hide AfterRemove, AfterNew, AfterSelect, SavedFiles, SavedIndex, Selected, Ascii;
  }

  lemma RemovedActive(m: Manager, i: nat)
    requires Kept(m) && i < |m.sessions|
    ensures Kept(AfterRemove(m, i)) && (|m.sessions| > 1 ==> 0 <= AfterRemove(m, i).active)
  {
    OpKeeps(m, Remove(i));
  }

  lemma DefaultName()
    ensures NulFree(Ascii("Chat 1")) && |Ascii("Chat 1")| == 6
  {
  }

  /** A message without a text is lost, and a user's reasoning is dropped. */
  lemma MessagesLostOrChanged(reasoning: bytes)
    requires reasoning != []
    ensures RestoredChat([Message(None, false, None, [], None)]) == []
    ensures RestoredChat([Message(Some([]), true, Some(reasoning), [], None)])
         == [Message(Some([]), true, None, [], None)]
  {
    var lost, changed := Message(None, false, None, [], None), Message(Some([]), true, Some(reasoning), [], None);
    assert [lost][..0] == [] && [changed][..0] == [];
    assert RestoredChat([]) == [];
  }

  // --- In place --------------------------------------------------------------------------------

  class Store {
    /** sessions.json, and sessions/<id>.json by id. */
    var index: Option<bytes>
    var files: map<int, bytes>
    const fp: Format

    /** cJSON_PrintUnformatted, and what fputs writes of the string. */
    method Printed(v: Value) returns (text: Option<bytes>)
      requires Sound(v, fp) && Nesting(v) <= 3 && v.Object? && JsonPrinter.GoodFormat(fp)
      ensures text == if TextFits(v, fp) then Some(Text(v, fp)) else None
    {
      hide Print;
      TextIsRead(v, fp);
      SeenWholly(v);
      var str := JsonPrinter.PrintTree(v, false, fp);
      if str == null {
        return None;
      }
      text := Some(str[..str.Length - 1]);
    }

    /** save_index: builds the tree entry by entry. */
    method SaveIndex(sm: SessionManager)
      requires sm.Valid() && Saveable(sm.View()) && JsonPrinter.GoodFormat(fp)
      modifies this`index
      ensures index == SavedIndex(sm.View(), old(index), fp)
    {
      hide Text, TextFits, Saveable;
      var arr: seq<Value> := [];
      for i := 0 to sm.count
        invariant arr == EntryValues(sm.sessions[..i])
      {
        var s := sm.sessions[i];
        arr := arr + [Object([Field("id", Number(s.id as real)), Field("name", String(s.name))])];
        assert sm.sessions[..i + 1] == sm.sessions[..i] + [s];
      }
      var root := Object([Field("next_id", Number(sm.nextId as real)), Field("sessions", Array(arr))]);
      assert root == IndexValue(sm.View());
      IndexSound(sm.View(), fp);
      var str := Printed(root);
      if str.Some? {
        index := str;
      }
    }

    /** persist_save_session. */
    method SaveSession(sm: SessionManager, idx: int)
      requires sm.Valid() && Saveable(sm.View()) && JsonPrinter.GoodFormat(fp)
      modifies this`files
      ensures files == if 0 <= idx < sm.count then SavedSession(sm.sessions[idx], old(files), fp) else old(files)
    {
      hide Text, TextFits;
      if idx < 0 || idx >= sm.count {
        return;
      }
      var s := sm.sessions[idx];
      assert sm.View().sessions[idx] == s;
      var msgs: seq<Value> := [];
      for i := 0 to |s.chat|
        invariant msgs == MessageValues(s.chat[..i])
      {
        var m := s.chat[i];
        var members := [Field("role", String(Ascii(if m.isUser then "user" else "assistant")))];
        if m.text.Some? {
          members := members + [Field("content", String(m.text.value))];
        }
        if !m.isUser && m.reasoning.Some? {
          members := members + [Field("reasoning", String(m.reasoning.value))];
        }
        assert Object(members) == MessageValue(m);
        msgs := msgs + [Object(members)];
        assert s.chat[..i + 1] == s.chat[..i] + [m];
      }
      assert s.chat[..|s.chat|] == s.chat;
      var root := Object([Field("id", Number(s.id as real)), Field("name", String(s.name)),
                          Field("messages", Array(msgs))]);
      SessionSound(s, fp);
      var str := Printed(root);
      if str.Some? {
        files := files[s.id := str.value];
      }
    }

    /** persist_save_all. */
    method SaveAll(sm: SessionManager)
      requires sm.Valid() && Saveable(sm.View()) && JsonPrinter.GoodFormat(fp)
      modifies this
      ensures index == SavedIndex(sm.View(), old(index), fp)
      ensures files == SavedFiles(sm.View().sessions, old(files), fp)
    {
      hide Saveable, SavedSession, SavedIndex;
      SaveIndex(sm);
      for i := 0 to sm.count
        invariant index == SavedIndex(sm.View(), old(index), fp)
        invariant files == SavedFiles(sm.sessions[..i], old(files), fp)
      {
        SaveSession(sm, i);
        assert sm.sessions[..i + 1][..i] == sm.sessions[..i];
      }
    }

    /** persist_delete_session. */
    method DeleteSession(id: int)
      modifies this`files
      ensures files == old(files) - {id}
    {
      files := files - {id};
    }

    /** do_delete_session; `sel` is the line of the sidebar that is selected then. */
    method DoDelete(sm: SessionManager, idx: int, sidebar: int) returns (sel: int)
      requires sm.Valid() && Kept(sm.View()) && Saveable(sm.View()) && JsonPrinter.GoodFormat(fp)
      requires sm.count == 1 ==> sm.nextId < INT_MAX
      modifies this, sm, sm.sessions
      ensures sm.Valid()
      ensures State(sm.View(), index, files)
           == if 0 <= idx < old(sm.count) then AfterDeletion(old(State(sm.View(), index, files)), idx, sidebar, fp)
              else old(State(sm.View(), index, files))
      ensures 0 <= idx < old(sm.count) ==> sel == if sidebar >= sm.count then sm.count - 1 else sidebar
      ensures !(0 <= idx < old(sm.count)) ==> sel == sidebar
    {
      hide Kept, Saveable, SavedFiles, SavedIndex, Loaded, AfterForgetting;
      sel := sidebar;
      if idx < 0 || idx >= sm.count {
        return;
      }
      var newActive := Forget(sm, idx);
      if sel >= sm.count {
        sel := sm.count - 1;
      }
      NextIdPositive(sm.View());
      OpSaveable(sm.View(), Select(if newActive >= 0 then newActive else sel));
      sm.SelectSession(if newActive >= 0 then newActive else sel);
      SaveAll(sm);
    }

    /** Its first part: the session and its file go, and there is a session again. */
    method Forget(sm: SessionManager, idx: nat) returns (newActive: int)
      requires sm.Valid() && Kept(sm.View()) && Saveable(sm.View()) && idx < sm.count
      requires sm.count == 1 ==> sm.nextId < INT_MAX
      modifies this`files, sm, sm.sessions
      ensures sm.Valid() && Kept(sm.View()) && Saveable(sm.View())
      ensures State(sm.View(), index, files) == AfterForgetting(old(State(sm.View(), index, files)), idx, fp)
      ensures newActive == After(old(sm.View()), Remove(idx)).active
    {
      hide Kept, Saveable, SavedFiles, SavedIndex, Loaded, Named, Ascii;
      ghost var m := sm.View();
      var id := sm.sessions[idx].id;
      newActive := sm.RemoveSession(idx);
      OpKeeps(m, Remove(idx));
      OpSaveable(m, Remove(idx));
      DeleteSession(id);
      if sm.count == 0 {
        ghost var before := sm.View();
        var added := sm.NewSession(Ascii("Chat 1"));
        OpKeeps(before, New(Ascii("Chat 1")));
        OpSaveable(before, New(Ascii("Chat 1")));
      }
    }

    /** read_file and cJSON_Parse. */
    method ReadTree(file: Option<bytes>) returns (root: Option<Value>)
      ensures root == TreeOf(file)
    {
      if file.None? || file.value == [] {
        return None;
      }
      root := JsonParser.ParseWithLengthOpts(CString(file.value) + [0], false);
    }

    method LoadChat(file: Option<bytes>) returns (chat: History)
      ensures chat == ChatOf(file)
    {
      hide MessageOf;
      chat := [];
      var root := ReadTree(file);
      if root.None? {
        return;
      }
      var msgs := Children(GetItem(root.value, Ascii("messages")));
      for i := 0 to |msgs|
        invariant chat == MessagesOf(msgs[..i])
      {
        chat := chat + MessageOf(msgs[i]);
        assert msgs[..i + 1][..i] == msgs[..i];
      }
      assert msgs[..|msgs|] == msgs;
    }

    /** One entry of the index. */
    method LoadEntry(sm: SessionManager, entry: Value) returns (full: bool)
      requires sm.Valid()
      modifies sm, sm.sessions
      ensures sm.Valid()
      ensures (sm.View(), full) == AfterEntry(old(sm.View()), entry, files)
    {
      hide ChatOf, Find, GetInt, GetString;
      var id, name := GetInt(entry, Ascii("id")), GetString(entry, Ascii("name"));
      if id.None? || name.None? {
        return false;
      }
      ghost var before := sm.View();
      var idx := sm.NewSession(name.value);
      if idx < 0 {
        return true;
      }
      sm.sessions[idx] := sm.sessions[idx].(id := id.value);
      var chat := LoadChat(Find(files, id.value));
      sm.sessions[idx] := sm.sessions[idx].(chat := chat);
      assert sm.sessions[..sm.count] == before.sessions + [Session(id.value, Named(name.value), chat)];
      return false;
    }

    /** persist_load. */
    method Load(sm: SessionManager) returns (loaded: int)
      requires sm.Valid()
      modifies sm, sm.sessions
      ensures sm.Valid() && (sm.View(), loaded) == Loaded(old(sm.View()), index, files)
    {
      hide LoadEntries;
      var root := ReadTree(index);
      if root.None? {
        return 0;
      }
      var next := GetInt(root.value, Ascii("next_id"));
      var entries := Children(GetItem(root.value, Ascii("sessions")));
      var before := sm.count;
      LoadAll(sm, entries);
      sm.nextId := if next.Some? then next.value else 1;
      return sm.count - before;
    }

    /** The loop over the entries. */
    method LoadAll(sm: SessionManager, entries: seq<Value>)
      requires sm.Valid()
      modifies sm, sm.sessions
      ensures sm.Valid() && sm.View() == LoadEntries(old(sm.View()), entries, files)
    {
      assert entries[0..] == entries;
      for i := 0 to |entries|
        invariant sm.Valid()
        invariant LoadEntries(sm.View(), entries[i..], files) == LoadEntries(old(sm.View()), entries, files)
      {
        hide AfterEntry;
        assert entries[i..][0] == entries[i] && entries[i..][1..] == entries[i + 1..];
        var full := LoadEntry(sm, entries[i]);
        if full {
          return;
        }
      }
      assert entries[|entries|..] == [];
    }
  }
}
