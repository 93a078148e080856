/** Printing a tree and parsing the text gives the tree back. */
module JsonRoundTrip {
  import opened Bytes
  import opened JsonValue
  import opened JsonStringSpec
  import opened JsonParseSpec
  import opened JsonPrintSpec
  import opened JsonGrammar
  import opened JsonCompleteness

  // --- The syntax tree of a printed text --------------------------------------------

  function BytePiece(b: byte): (p: Piece)
    ensures ValidPiece(p) && PieceText(p) == EscapedByte(b)
  {
    if b == QUOTE || b == BACKSLASH then Short(b)
    else if b >= 32 then Plain(b)
    else if b == 8 then Short(98)
    else if b == 12 then Short(102)
    else if b == LF then Short(110)
    else if b == CR then Short(114)
    else if b == TAB then Short(116)
    else Hex([48, 48, HexChar(b / 16), HexChar(b % 16)])
  }

  lemma BytePieceValue(b: byte)
    ensures PieceValue(BytePiece(b)) == [b]
  {
  }

  function Pieces(s: bytes): (ps: seq<Piece>)
    ensures ValidPieces(ps)
  {
    if s == [] then [] else [BytePiece(s[0])] + Pieces(s[1..])
  }

  /** Escaping is undone by the grammar's reading of the escapes. */
  lemma {:induction false} PiecesOf(s: bytes)
    ensures PiecesText(Pieces(s)) == Escaped(s)
    ensures PiecesValue(Pieces(s)) == s
    decreases |s|
  {
    hide PieceText, PieceValue, EscapedByte;
    if s != [] {
      PiecesOf(s[1..]);
      BytePieceValue(s[0]);
      assert Pieces(s)[1..] == Pieces(s[1..]);
    }
  }

  function Tree(v: Value, format: bool, depth: nat, fp: Format): Cst
    decreases v, 2
  {
    match v
    case Null => CNull
    case Bool(b) => if b then CTrue else CFalse
    case Number(d) => CNumber(NumberNumeral(d, fp))
    case String(s) => CString(Pieces(s))
    case Array(items) =>
      if items == [] then CEmptyArray([]) else CArray(ItemsTree(items, [], format, depth + 1, fp))
    case Object(members) =>
      if members == [] then CEmptyObject(IfFormat(format, [LF] + Tabs(depth)))
      else CObject(MembersTree(members, format, depth + 1, fp))
  }

  /** `pre` is the white space before the first element: the space after a comma, when formatted. */
  function ItemsTree(items: seq<Value>, pre: bytes, format: bool, depth: nat, fp: Format): Elems
    requires items != []
    decreases items, 0
  {
    var v := Tree(items[0], format, depth, fp);
    if |items| == 1 then LastElem(pre, v, [])
    else MoreElems(pre, v, [], ItemsTree(items[1..], IfFormat(format, [SPACE]), format, depth, fp))
  }

  function MembersTree(members: seq<Member>, format: bool, depth: nat, fp: Format): Mems
    requires members != [] && depth > 0
    decreases members, 0
  {
    var last := |members| == 1;
    var e := Entry(IfFormat(format, [LF] + Tabs(depth)), Pieces(members[0].key), [], IfFormat(format, [TAB]),
                   Tree(members[0].value, format, depth, fp),
                   if last then IfFormat(format, [LF] + Tabs(depth - 1)) else []);
    if last then LastMem(e) else MoreMems(e, MembersTree(members[1..], format, depth, fp))
  }

  // --- The tree is a valid one and denotes the value --------------------------------

  lemma {:induction false} TreeDenotes(v: Value, format: bool, depth: nat, fp: Format)
    requires Readable(v, fp)
    ensures Valid(Tree(v, format, depth, fp))
    ensures Denotes(Tree(v, format, depth, fp)) == v
    ensures Depth(Tree(v, format, depth, fp)) == Nesting(v)
    decreases v, 1
  {
    match v
    case Number(d) =>
      if IsInt32(d) {
        IntNumeralValue(d.Floor);
      }
    case String(s) => PiecesOf(s);
    case Array(items) =>
      if items != [] {
        ItemsTreeDenotes(items, [], format, depth + 1, fp);
      }
    case Object(members) =>
      if members != [] {
        MembersTreeDenotes(members, format, depth + 1, fp);
      }
    case _ =>
  }

  lemma {:induction false} ItemsTreeDenotes(items: seq<Value>, pre: bytes, format: bool, depth: nat, fp: Format)
    requires items != [] && ReadableItems(items, fp) && ValidWs(pre)
    ensures var e := ItemsTree(items, pre, format, depth, fp);
      ValidElems(e) && ElemsDenote(e) == items && ElemsDepth(e) == ItemsNesting(items)
    decreases items, 0
  {
    TreeDenotes(items[0], format, depth, fp);
    if |items| > 1 {
      ItemsTreeDenotes(items[1..], IfFormat(format, [SPACE]), format, depth, fp);
    } else {
      assert items[1..] == [];
    }
  }

  lemma {:induction false} MembersTreeDenotes(members: seq<Member>, format: bool, depth: nat, fp: Format)
    requires members != [] && depth > 0 && ReadableMembers(members, fp)
    ensures var ms := MembersTree(members, format, depth, fp);
      ValidMems(ms) && MemsDenote(ms) == members && MemsDepth(ms) == MembersNesting(members)
    decreases members, 0
  {
    hide Tree, Readable, Denotes, PiecesValue, Pieces;
    TreeDenotes(members[0].value, format, depth, fp);
    PiecesOf(members[0].key);
    if |members| > 1 {
      MembersTreeDenotes(members[1..], format, depth, fp);
    } else {
      assert members[1..] == [];
    }
  }

  // --- The tree spells the printed text ----------------------------------------------

  lemma FlattenCat(a: Rope, b: Rope)
    ensures Flatten(Cat(a, b)) == Flatten(a) + Flatten(b)
  {
  }

  lemma FlattenElems(e: Elems)
    ensures Flatten(ElemsText(e)) == e.pre + (Flatten(Text(e.v)) + (e.post +
      (if e.MoreElems? then [COMMA] + Flatten(ElemsText(e.rest)) else [RBRACKET])))
  {
    hide Text;
    var r4 := if e.MoreElems? then Cat(Byte(COMMA), ElemsText(e.rest)) else Byte(RBRACKET);
    var r3 := Cat(Lit(e.post), r4);
    var r2 := Cat(Text(e.v), r3);
    FlattenCat(Lit(e.pre), r2);
    FlattenCat(Text(e.v), r3);
    FlattenCat(Lit(e.post), r4);
  }

  lemma FlattenEntry(m: Entry, tail: Rope)
    ensures Flatten(EntryText(m, tail)) == m.pre + (StringText(m.key) + (m.mid + ([COLON] +
      (m.colon + (Flatten(Text(m.v)) + (m.post + Flatten(tail)))))))
  {
    hide Text, StringText;
    var r3 := Cat(Lit(m.post), tail);
    var r2 := Cat(Text(m.v), r3);
    FlattenCat(Lit(m.colon), r2);
    FlattenCat(Text(m.v), r3);
    FlattenCat(Lit(m.post), tail);
    var q4 := Cat(Byte(COLON), MemberTail(m, tail));
    var q3 := Cat(Lit(m.mid), q4);
    var q2 := Cat(Lit(StringText(m.key)), q3);
    FlattenCat(Lit(m.pre), q2);
    FlattenCat(Lit(StringText(m.key)), q3);
    FlattenCat(Lit(m.mid), q4);
    FlattenCat(Byte(COLON), MemberTail(m, tail));
  }

  lemma {:induction false} TreeText(v: Value, format: bool, depth: nat, fp: Format)
    ensures Flatten(Text(Tree(v, format, depth, fp))) == Print(v, format, depth, fp)
    decreases v, 1
  {
    match v
    case String(s) => PiecesOf(s);
    case Array(items) => ArrayText(items, format, depth, fp);
    case Object(members) => ObjectText(members, format, depth, fp);
    case _ =>
  }

  lemma {:induction false} ArrayText(items: seq<Value>, format: bool, depth: nat, fp: Format)
    ensures Flatten(Text(Tree(Array(items), format, depth, fp))) == Print(Array(items), format, depth, fp)
    decreases items, 1
  {
    if items == [] {
      FlattenCat(Lit([]), Byte(RBRACKET));
    } else {
      ItemsText(items, [], format, depth + 1, fp);
      assert [] + (PrintItems(items, format, depth + 1, fp) + [RBRACKET])
          == PrintItems(items, format, depth + 1, fp) + [RBRACKET];
    }
  }

  /** The white space of an empty object: a line feed and the indentation, when formatted. */
  lemma EmptyObjectText(format: bool, depth: nat)
    ensures Flatten(Text(CEmptyObject(IfFormat(format, [LF] + Tabs(depth)))))
         == [LBRACE] + (IfFormat(format, [LF]) + ([] + (IfFormat(format, Tabs(depth)) + [RBRACE])))
  {
    hide Tabs;
    var lf, tabs := IfFormat(format, [LF]), IfFormat(format, Tabs(depth));
    assert IfFormat(format, [LF] + Tabs(depth)) == lf + tabs;
    FlattenCat(Lit(lf + tabs), Byte(RBRACE));
    Assoc(lf, tabs, [RBRACE]);
    assert [] + (tabs + [RBRACE]) == tabs + [RBRACE];
  }

  lemma {:induction false} ObjectText(members: seq<Member>, format: bool, depth: nat, fp: Format)
    ensures Flatten(Text(Tree(Object(members), format, depth, fp))) == Print(Object(members), format, depth, fp)
    decreases members, 1
  {
    hide Tabs, MembersTree, MemsText, IfFormat;
    if members == [] {
      EmptyObjectText(format, depth);
    } else {
      MembersText(members, format, depth + 1, fp);
    }
  }

  lemma MoreItems(p: bytes, c: bytes, sp: bytes, rest: bytes, close: bytes)
    ensures (p + ((c + sp) + rest)) + close == p + ([] + (c + (sp + (rest + close))))
  {
    Assoc(p, (c + sp) + rest, close);
    Assoc(c + sp, rest, close);
    Assoc(c, sp, rest + close);
    assert [] + (c + (sp + (rest + close))) == c + (sp + (rest + close));
  }

  lemma OneItem(p: bytes, close: bytes)
    ensures (p + ([] + [])) + close == p + ([] + close)
  {
    assert p + ([] + []) == p && [] + close == close;
  }

  lemma {:induction false} ItemsText(items: seq<Value>, pre: bytes, format: bool, depth: nat, fp: Format)
    requires items != []
    ensures Flatten(ElemsText(ItemsTree(items, pre, format, depth, fp)))
         == pre + (PrintItems(items, format, depth, fp) + [RBRACKET])
    decreases items, 0
  {
    hide Text, Flatten, ElemsText, Print;
    var e := ItemsTree(items, pre, format, depth, fp);
    FlattenElems(e);
    TreeText(items[0], format, depth, fp);
    var p := Print(items[0], format, depth, fp);
    if |items| > 1 {
      var sp := IfFormat(format, [SPACE]);
      ItemsText(items[1..], sp, format, depth, fp);
      MoreItems(p, [COMMA], sp, PrintItems(items[1..], format, depth, fp), [RBRACKET]);
    } else {
      OneItem(p, [RBRACKET]);
    }
  }

  /** A member pushed in front of what follows it. */
  lemma MemberFront(lf: bytes, t: bytes, q: bytes, c: bytes, tab: bytes, p: bytes, rest: bytes, close: bytes)
    ensures lf + ((t + (q + (c + (tab + (p + rest))))) + close)
         == (lf + t) + (q + ([] + (c + (tab + (p + (rest + close))))))
  {
    Assoc(lf, t, q + ([] + (c + (tab + (p + (rest + close))))));
    Assoc(t, q + (c + (tab + (p + rest))), close);
    Assoc(q, c + (tab + (p + rest)), close);
    Assoc(c, tab + (p + rest), close);
    Assoc(tab, p + rest, close);
    Assoc(p, rest, close);
    var x := c + (tab + (p + (rest + close)));
    assert [] + x == x;
  }

  lemma {:induction false} MembersText(members: seq<Member>, format: bool, depth: nat, fp: Format)
    requires members != [] && depth > 0
    ensures Flatten(MemsText(MembersTree(members, format, depth, fp)))
         == IfFormat(format, [LF]) + (PrintMembers(members, format, depth, fp)
              + (IfFormat(format, Tabs(depth - 1)) + [RBRACE]))
    decreases members, 0
  {
    hide Text, Flatten, EntryText, Print, Quoted, StringText, Pieces, Tree;
    var lf := IfFormat(format, [LF]);
    var t := IfFormat(format, Tabs(depth));
    var key := StringText(Pieces(members[0].key));
    var tab := IfFormat(format, [TAB]);
    var p := Print(members[0].value, format, depth, fp);
    var close := IfFormat(format, Tabs(depth - 1)) + [RBRACE];
    var ms := MembersTree(members, format, depth, fp);
    TreeText(members[0].value, format, depth, fp);
    KeyText(members[0].key);
    FlattenEntry(ms.m, MemsTail(ms));
    assert ms.m.pre == lf + t;
    var rest := MemberEnd(|members| > 1, format) + PrintMembers(members[1..], format, depth, fp);
    MemberFront(lf, t, key, [COLON], tab, p, rest, close);
    if |members| > 1 {
      MembersText(members[1..], format, depth, fp);
      TailText(ms, lf, PrintMembers(members[1..], format, depth, fp), close);
    } else {
      LastText(ms, lf, IfFormat(format, Tabs(depth - 1)));
      assert PrintMembers(members[1..], format, depth, fp) == [];
    }
  }

  lemma KeyText(key: bytes)
    ensures StringText(Pieces(key)) == Quoted(key)
  {
    PiecesOf(key);
  }

  lemma TailText(ms: Mems, lf: bytes, rest: bytes, close: bytes)
    requires ms.MoreMems? && ms.m.post == [] && Flatten(MemsText(ms.rest)) == lf + (rest + close)
    ensures ms.m.post + Flatten(MemsTail(ms)) == (([COMMA] + lf) + rest) + close
  {
    hide MemsText;
    FlattenCat(Byte(COMMA), MemsText(ms.rest));
    Assoc([COMMA] + lf, rest, close);
    Assoc([COMMA], lf, rest + close);
  }

  lemma LastText(ms: Mems, lf: bytes, tabs: bytes)
    requires ms.LastMem? && ms.m.post == lf + tabs
    ensures ms.m.post + Flatten(MemsTail(ms)) == (([] + lf) + []) + (tabs + [RBRACE])
  {
    Assoc(lf, tabs, [RBRACE]);
    assert ([] + lf) + [] == lf;
  }

  // --- The round trip ----------------------------------------------------------------

  /**
    * cJSON_Parse undoes cJSON_Print and cJSON_PrintUnformatted: every tree nested at most 1000 deep
    * comes back with the same children in the same order.
    */
  lemma RoundTrip(v: Value, format: bool, requireNul: bool, fp: Format)
    requires Readable(v, fp) && Nesting(v) <= NESTING_LIMIT
    ensures ParseBuffer(Print(v, format, 0, fp) + [0], requireNul) == Some(v)
  {
    hide Text, Print, Tree, ParseBuffer;
    var d := Document([], Tree(v, format, 0, fp), []);
    TreeDenotes(v, format, 0, fp);
    TreeText(v, format, 0, fp);
    DocumentParsed(d, requireNul);
    FlattenCat(Lit([]), Cat(Text(d.c), Lit([])));
    FlattenCat(Text(d.c), Lit([]));
    var t := Print(v, format, 0, fp);
    assert [] + (t + []) == t;
  }

  /** A parsed value is never nested deeper than the limit allows. */
  lemma {:induction false} ParsedNesting(s: bytes, i: nat, depth: int)
    requires i <= |s| && depth <= NESTING_LIMIT && ValueAt(s, i, depth).Done?
    ensures depth + Nesting(ValueAt(s, i, depth).value) <= NESTING_LIMIT
    decreases |s| - i, 0
  {
    hide LiteralAt, StrToD, At, ElementsAt, MembersAt;
    var v := ValueAt(s, i, depth).value;
    if v.Array? && v.items != [] {
      ParsedItemsNesting(s, i + 1, depth + 1);
    } else if v.Object? && v.members != [] {
      ParsedMembersNesting(s, i + 1, depth + 1);
    }
  }

  lemma {:induction false} ParsedItemsNesting(s: bytes, i: nat, depth: int)
    requires i <= |s| && depth <= NESTING_LIMIT && ElementsAt(s, i, depth).Done?
    ensures depth + ItemsNesting(ElementsAt(s, i, depth).value) <= NESTING_LIMIT
    decreases |s| - i, 1
  {
    hide ValueAt;
    var v := ValueAt(s, SkipBlanks(s, i), depth);
    ParsedNesting(s, SkipBlanks(s, i), depth);
    var items := ElementsAt(s, i, depth).value;
    var k := SkipBlanks(s, v.next);
    assert items[0] == v.value;
    if s[k] == COMMA {
      ParsedItemsNesting(s, k + 1, depth);
      assert items[1..] == ElementsAt(s, k + 1, depth).value;
    } else {
      assert items[1..] == [];
    }
  }

  lemma {:induction false} ParsedMembersNesting(s: bytes, i: nat, depth: int)
    requires i <= |s| && depth <= NESTING_LIMIT && MembersAt(s, i, depth).Done?
    ensures depth + MembersNesting(MembersAt(s, i, depth).value) <= NESTING_LIMIT
    decreases |s| - i, 1
  {
    hide ValueAt, LiteralAt;
    var m := MemberAt(s, i, depth);
    ParsedMemberNesting(s, i, depth);
    var members := MembersAt(s, i, depth).value;
    var k := SkipBlanks(s, m.next);
    assert members[0] == m.value;
    if s[k] == COMMA {
      ParsedMembersNesting(s, k + 1, depth);
      assert members[1..] == MembersAt(s, k + 1, depth).value;
    } else {
      assert members[1..] == [];
    }
  }

  lemma {:induction false} ParsedMemberNesting(s: bytes, i: nat, depth: int)
    requires i <= |s| && depth <= NESTING_LIMIT && MemberAt(s, i, depth).Done?
    ensures depth + Nesting(MemberAt(s, i, depth).value.value) <= NESTING_LIMIT
    decreases |s| - i, 0
  {
    hide ValueAt;
    var key := LiteralAt(s, SkipBlanks(s, i));
    var c := SkipBlanks(s, key.value.1);
    ParsedNesting(s, SkipBlanks(s, c + 1), depth);
  }

  /**
    * A tree comes back from what is printed of it if and only if it is nested at most 1000 deep and its
    * strings hold no byte 0. Within the limit, what comes back is what the printer sees of it.
    */
  lemma RoundTripExactly(v: Value, format: bool, requireNul: bool, fp: Format)
    requires Readable(v, fp)
    ensures var back := ParseBuffer(Print(Seen(v), format, 0, fp) + [0], requireNul);
      && (back == Some(v) <==> Nesting(v) <= NESTING_LIMIT && CStrings(v))
      && (back == Some(Seen(v)) <==> Nesting(v) <= NESTING_LIMIT)
  {
    hide Print, ValueAt, Nesting, Seen, CStrings, Readable;
    var s := Print(Seen(v), format, 0, fp) + [0];
    SeenWholly(v);
    SeenAlike(v, fp);
    if Nesting(v) <= NESTING_LIMIT {
      RoundTrip(Seen(v), format, requireNul, fp);
    } else if ParseBuffer(s, requireNul).Some? {
      ParsedNesting(s, SkipBlanks(s, AfterBom(s)), 0);
    }
  }

  /** Two trees print the same text exactly when the printer sees the same of them. */
  lemma PrintInjective(v: Value, w: Value, format: bool, fp: Format)
    requires Readable(v, fp) && Readable(w, fp)
    requires Nesting(v) <= NESTING_LIMIT && Nesting(w) <= NESTING_LIMIT
    ensures Print(Seen(v), format, 0, fp) == Print(Seen(w), format, 0, fp) <==> Seen(v) == Seen(w)
  {
    hide Print, ParseBuffer, Seen, Readable, Nesting;
    SeenAlike(v, fp);
    SeenAlike(w, fp);
    RoundTrip(Seen(v), format, false, fp);
    RoundTrip(Seen(w), format, false, fp);
  }
}
