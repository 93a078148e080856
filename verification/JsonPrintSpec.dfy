/** The text cJSON prints for a tree, as a function of the tree. */
module JsonPrintSpec {
  import opened Bytes
  import opened JsonValue
  import opened JsonParseSpec

  /**
    * What printf makes of a number that is no 32-bit integer. The format string and the rounding
    * are not modelled: any function to decimal numerals stands for them.
    */
  type Format = real -> Numeral

  /** print_number: integers by "%d", anything else by the floating-point formats. */
  function NumberText(d: real, fp: Format): bytes {
    NumeralText(NumberNumeral(d, fp))
  }

  function NumberNumeral(d: real, fp: Format): Numeral {
    if IsInt32(d) then IntNumeral(d.Floor) else fp(d)
  }

  function HexChar(n: nat): (b: byte)
    requires n < 16
  {
    if n < 10 then 48 + n else 87 + n
  }

  /** The text of one byte inside a literal. */
  function EscapedByte(b: byte): (t: bytes)
    ensures 1 <= |t| <= 6
  {
    if b == QUOTE || b == BACKSLASH then [BACKSLASH, b]
    else if b >= 32 then [b]
    else if b == 8 then [BACKSLASH, 98]
    else if b == 12 then [BACKSLASH, 102]
    else if b == LF then [BACKSLASH, 110]
    else if b == CR then [BACKSLASH, 114]
    else if b == TAB then [BACKSLASH, 116]
    else [BACKSLASH, 117, 48, 48, HexChar(b / 16), HexChar(b % 16)]
  }

  function Escaped(s: bytes): bytes {
    if s == [] then [] else EscapedByte(s[0]) + Escaped(s[1..])
  }

  function Quoted(s: bytes): bytes {
    [QUOTE] + (Escaped(s) + [QUOTE])
  }

  function Tabs(n: nat): (t: bytes)
    ensures |t| == n
    ensures forall k | 0 <= k < n :: t[k] == TAB
  {
    seq(n, _ => TAB)
  }

  function IfFormat(format: bool, t: bytes): bytes {
    if format then t else []
  }

  function Print(v: Value, format: bool, depth: nat, fp: Format): bytes
    decreases v, 1
  {
    match v
    case Null => NULL_TEXT
    case Bool(b) => if b then TRUE_TEXT else FALSE_TEXT
    case Number(d) => NumberText(d, fp)
    case String(s) => Quoted(s)
    case Array(items) => [LBRACKET] + (PrintItems(items, format, depth + 1, fp) + [RBRACKET])
    case Object(members) =>
      [LBRACE] + (IfFormat(format, [LF]) + (PrintMembers(members, format, depth + 1, fp)
        + (IfFormat(format, Tabs(depth)) + [RBRACE])))
  }

  /** Elements with a comma, and a space when formatted, between two of them. */
  function PrintItems(items: seq<Value>, format: bool, depth: nat, fp: Format): bytes
    decreases items, 0
  {
    if items == [] then []
    else
      Print(items[0], format, depth, fp)
        + (ItemEnd(|items| > 1, format) + PrintItems(items[1..], format, depth, fp))
  }

  function ItemEnd(more: bool, format: bool): bytes {
    if more then [COMMA] + IfFormat(format, [SPACE]) else []
  }

  /** Members, one on a line and indented when formatted. */
  function PrintMembers(members: seq<Member>, format: bool, depth: nat, fp: Format): bytes
    decreases members, 0
  {
    if members == [] then []
    else
      IfFormat(format, Tabs(depth)) + (Quoted(members[0].key) + ([COLON] + (IfFormat(format, [TAB])
        + (Print(members[0].value, format, depth, fp)
          + (MemberEnd(|members| > 1, format) + PrintMembers(members[1..], format, depth, fp))))))
  }

  function MemberEnd(more: bool, format: bool): bytes {
    (if more then [COMMA] else []) + IfFormat(format, [LF])
  }

  /** Every number that is no 32-bit integer is formatted as a numeral that reads back as itself. */
  predicate Readable(v: Value, fp: Format)
    decreases v, 1
  {
    match v
    case Number(d) => IsInt32(d) || (ValidNumeral(fp(d)) && NumeralValue(fp(d)) == d)
    case Array(items) => ReadableItems(items, fp)
    case Object(members) => ReadableMembers(members, fp)
    case _ => true
  }

  predicate ReadableItems(items: seq<Value>, fp: Format)
    decreases items, 0
  {
    items == [] || (Readable(items[0], fp) && ReadableItems(items[1..], fp))
  }

  predicate ReadableMembers(members: seq<Member>, fp: Format)
    decreases members, 0
  {
    members == [] || (Readable(members[0].value, fp) && ReadableMembers(members[1..], fp))
  }

  // --- What the printer sees of a tree -------------------------------------------------

  /** The strings of a tree are C strings: they hold no byte 0. */
  predicate CStrings(v: Value)
    decreases v, 1
  {
    match v
    case String(s) => NulFree(s)
    case Array(items) => CStringItems(items)
    case Object(members) => CStringMembers(members)
    case _ => true
  }

  predicate CStringItems(items: seq<Value>)
    decreases items, 0
  {
    items == [] || (CStrings(items[0]) && CStringItems(items[1..]))
  }

  predicate CStringMembers(members: seq<Member>)
    decreases members, 0
  {
    members == [] || (NulFree(members[0].key) && CStrings(members[0].value) && CStringMembers(members[1..]))
  }

  /** Each string up to its first byte 0, where the C code takes it to end. */
  function Seen(v: Value): (w: Value)
    ensures CStrings(w)
    decreases v, 1
  {
    match v
    case String(s) => String(CString(s))
    case Array(items) => Array(SeenItems(items))
    case Object(members) => Object(SeenMembers(members))
    case _ => v
  }

  function SeenItems(items: seq<Value>): (r: seq<Value>)
    ensures CStringItems(r) && |r| == |items|
    ensures forall i | 0 <= i < |items| :: r[i] == Seen(items[i])
    decreases items, 0
  {
    if items == [] then [] else [Seen(items[0])] + SeenItems(items[1..])
  }

  function SeenMembers(members: seq<Member>): (r: seq<Member>)
    ensures CStringMembers(r) && |r| == |members|
    ensures forall i | 0 <= i < |members| :: r[i] == Member(CString(members[i].key), Seen(members[i].value))
    decreases members, 0
  {
    if members == [] then []
    else [Member(CString(members[0].key), Seen(members[0].value))] + SeenMembers(members[1..])
  }

  /** The printer sees all of a tree exactly when its strings are C strings. */
  lemma {:induction false} SeenWholly(v: Value)
    ensures Seen(v) == v <==> CStrings(v)
    decreases v, 1
  {
    match v
    case String(s) => if NulFree(s) { CStringWhole(s); }
    case Array(items) => ItemsSeenWholly(items);
    case Object(members) => MembersSeenWholly(members);
    case _ =>
  }

  lemma {:induction false} ItemsSeenWholly(items: seq<Value>)
    ensures SeenItems(items) == items <==> CStringItems(items)
    decreases items, 0
  {
    hide Seen, CStrings;
    if items != [] {
      SeenWholly(items[0]);
      ItemsSeenWholly(items[1..]);
      assert items == [items[0]] + items[1..];
      assert SeenItems(items)[1..] == SeenItems(items[1..]);
    }
  }

  lemma {:induction false} MembersSeenWholly(members: seq<Member>)
    ensures SeenMembers(members) == members <==> CStringMembers(members)
    decreases members, 0
  {
    hide CString, Seen, CStrings;
    if members != [] {
      if NulFree(members[0].key) { CStringWhole(members[0].key); }
      SeenWholly(members[0].value);
      MembersSeenWholly(members[1..]);
      assert members == [members[0]] + members[1..];
      assert SeenMembers(members)[1..] == SeenMembers(members[1..]);
    }
  }

  /** Shape and numbers are seen as they are. */
  lemma {:induction false} SeenAlike(v: Value, fp: Format)
    ensures Nesting(Seen(v)) == Nesting(v) && Readable(Seen(v), fp) == Readable(v, fp)
    decreases v, 1
  {
    match v
    case Array(items) => ItemsSeenAlike(items, fp);
    case Object(members) => MembersSeenAlike(members, fp);
    case _ =>
  }

  lemma {:induction false} ItemsSeenAlike(items: seq<Value>, fp: Format)
    ensures ItemsNesting(SeenItems(items)) == ItemsNesting(items)
    ensures ReadableItems(SeenItems(items), fp) == ReadableItems(items, fp)
    decreases items, 0
  {
    if items != [] {
      SeenAlike(items[0], fp);
      ItemsSeenAlike(items[1..], fp);
      assert SeenItems(items)[1..] == SeenItems(items[1..]);
    }
  }

  lemma {:induction false} MembersSeenAlike(members: seq<Member>, fp: Format)
    ensures MembersNesting(SeenMembers(members)) == MembersNesting(members)
    ensures ReadableMembers(SeenMembers(members), fp) == ReadableMembers(members, fp)
    decreases members, 0
  {
    if members != [] {
      SeenAlike(members[0].value, fp);
      MembersSeenAlike(members[1..], fp);
      assert SeenMembers(members)[1..] == SeenMembers(members[1..]);
    }
  }
}
