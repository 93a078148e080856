/** The two forms of a printed text: the compact one is the shortest there is, the other one is that text laid out. */
module JsonLayout {
  import opened Bytes
  import opened JsonValue
  import opened Utf8Encoding
  import opened JsonStringSpec
  import opened JsonParseSpec
  import opened JsonPrintSpec
  import opened JsonGrammar
  import opened JsonRoundTrip

  // --- The compact text is the one shortest text -------------------------------------------

  /** Hex digits in lower case. */
  predicate LowerCase(p: Piece) {
    match p
    case Hex(h) => forall k | 0 <= k < |h| :: !(65 <= h[k] <= 70)
    case _ => true
  }

  predicate LowerPieces(ps: seq<Piece>) {
    forall k | 0 <= k < |ps| :: LowerCase(ps[k])
  }

  /** Hex digits in lower case and numerals as printf writes them, all over a document. */
  predicate Plainest(c: Cst, fp: Format)
    requires Valid(c)
  {
    match c
    case CNumber(n) => NumeralText(n) == NumberText(NumeralValue(n), fp)
    case CString(ps) => LowerPieces(ps)
    case CArray(elems) => PlainestElems(elems, fp)
    case CObject(mems) => PlainestMems(mems, fp)
    case _ => true
  }

  predicate PlainestElems(e: Elems, fp: Format)
    requires ValidElems(e)
  {
    Plainest(e.v, fp) && (e.MoreElems? ==> PlainestElems(e.rest, fp))
  }

  predicate PlainestMems(ms: Mems, fp: Format)
    requires ValidMems(ms)
  {
    && ValidEntry(ms.m) && LowerPieces(ms.m.key) && Plainest(ms.m.v, fp)
    && (ms.MoreMems? ==> PlainestMems(ms.rest, fp))
  }

  /** `t` is longer than `p`, or it is `p`. */
  predicate Above(t: bytes, p: bytes) {
    |t| > |p| || t == p
  }

  lemma AboveBoth(t: bytes, p: bytes, t': bytes, p': bytes)
    requires Above(t, p) && Above(t', p')
    ensures Above(t + t', p + p')
  {
  }

  lemma LowerHexDigit(b: byte)
    requires IsHex(b) && !(65 <= b <= 70)
    ensures HexDigit(b) < 16 && HexChar(HexDigit(b)) == b
  {
  }

  lemma {:induction false} EscapedAppend(a: bytes, b: bytes)
    ensures Escaped(a + b) == Escaped(a) + Escaped(b)
    decreases |a|
  {
    hide EscapedByte;
    if a == [] {
      assert a + b == b;
    } else {
      EscapedAppend(a[1..], b);
      assert (a + b)[1..] == a[1..] + b;
    }
  }

  /** Bytes of no ASCII character are printed as they are. */
  lemma {:induction false} HighBytes(s: bytes)
    requires forall k | 0 <= k < |s| :: s[k] >= 128
    ensures Escaped(s) == s
    decreases |s|
  {
    if s != [] {
      HighBytes(s[1..]);
    }
  }

  lemma EscapedOne(b: byte)
    ensures Escaped([b]) == EscapedByte(b)
  {
    assert [b][1..] == [];
  }

  lemma PieceShortest(p: Piece)
    requires ValidPiece(p) && LowerCase(p)
    ensures Above(PieceText(p), Escaped(PieceValue(p)))
  {
    hide Escaped, Utf8Bytes, Hex4;
    match p
    case Plain(b) => EscapedOne(b);
    case Short(c) => EscapedOne(PieceValue(p)[0]);
    case Hex(h) => HexShortest(h);
    case Pair(_, _) => EncodedShort(PieceCodepoint(p));
  }

  lemma EncodedShort(cp: nat)
    requires IsScalar(cp)
    ensures |Escaped(Utf8Bytes(cp))| <= 6
    ensures cp >= 32 ==> |Escaped(Utf8Bytes(cp))| <= 4
  {
    if cp < 128 {
      EscapedOne(cp);
    } else {
      HighBytes(Utf8Bytes(cp));
    }
  }

  lemma HexShortest(h: bytes)
    requires IsHex4(h) && !IsSurrogate(Hex4(h)) && LowerCase(Hex(h))
    ensures Above(PieceText(Hex(h)), Escaped(PieceValue(Hex(h))))
  {
    hide Escaped, Utf8Bytes, Hex4, EscapedByte;
    var cp := Hex4(h);
    EncodedShort(cp);
    if cp < 32 {
      EscapedOne(cp);
      ControlShortest(h);
    }
  }

  lemma ControlShortest(h: bytes)
    requires IsHex4(h) && Hex4(h) < 32 && LowerCase(Hex(h))
    ensures Above([BACKSLASH, 117] + h, EscapedByte(Hex4(h))) && Utf8Bytes(Hex4(h)) == [Hex4(h)]
  {
    hide HexDigit, HexChar;
    LowerHexDigit(h[0]);
    LowerHexDigit(h[1]);
    LowerHexDigit(h[2]);
    LowerHexDigit(h[3]);
    assert HexChar(0) == 48 by { ZeroDigit(); }
    assert h == [h[0], h[1], h[2], h[3]];
  }

  lemma ZeroDigit()
    ensures HexChar(0) == 48
  {
  }

  lemma {:induction false} PiecesShortest(ps: seq<Piece>)
    requires ValidPieces(ps) && LowerPieces(ps)
    ensures Above(PiecesText(ps), Escaped(PiecesValue(ps)))
  {
    hide ValidPiece, PieceText, PieceValue, LowerCase;
    if ps != [] {
      PieceShortest(ps[0]);
      PiecesShortest(ps[1..]);
      EscapedAppend(PieceValue(ps[0]), PiecesValue(ps[1..]));
      AboveBoth(PieceText(ps[0]), Escaped(PieceValue(ps[0])), PiecesText(ps[1..]), Escaped(PiecesValue(ps[1..])));
    }
  }

  lemma StringShortest(ps: seq<Piece>)
    requires ValidPieces(ps) && LowerPieces(ps)
    ensures Above(StringText(ps), StringText(Pieces(PiecesValue(ps))))
  {
    hide PiecesText, PiecesValue, Escaped, Pieces;
    PiecesShortest(ps);
    PiecesOf(PiecesValue(ps));
  }

  lemma {:induction false} CstShortest(c: Cst, depth: nat, fp: Format)
    requires Valid(c) && Plainest(c, fp)
    ensures Above(Flatten(Text(c)), Flatten(Text(Tree(Denotes(c), false, depth, fp))))
    decreases c
  {
    hide StringText, NumeralText, NumeralValue, ElemsText, MemsText;
    match c
    case CString(ps) => StringShortest(ps);
    case CArray(e) =>
      ElemsShortest(e, [], depth + 1, fp);
      var items := ElemsDenote(e);
      FlattenCat(Byte(LBRACKET), ElemsText(e));
      FlattenCat(Byte(LBRACKET), ElemsText(ItemsTree(items, [], false, depth + 1, fp)));
    case CObject(ms) =>
      MemsShortest(ms, depth + 1, fp);
      FlattenCat(Byte(LBRACE), MemsText(ms));
      FlattenCat(Byte(LBRACE), MemsText(MembersTree(MemsDenote(ms), false, depth + 1, fp)));
    case CNumber(n) =>
    case _ =>
  }

  lemma {:induction false} ElemsShortest(e: Elems, pre: bytes, depth: nat, fp: Format)
    requires ValidElems(e) && PlainestElems(e, fp) && pre == []
    ensures ElemsDenote(e) != []
    ensures Above(Flatten(ElemsText(e)), Flatten(ElemsText(ItemsTree(ElemsDenote(e), pre, false, depth, fp))))
    decreases e
  {
    hide Text, Flatten, ElemsText, Tree, Denotes, Plainest;
    var items := ElemsDenote(e);
    var e' := ItemsTree(items, pre, false, depth, fp);
    FlattenElems(e);
    FlattenElems(e');
    CstShortest(e.v, depth, fp);
    if e.MoreElems? {
      ElemsShortest(e.rest, IfFormat(false, [SPACE]), depth, fp);
      assert items[1..] == ElemsDenote(e.rest);
    }
  }

  lemma {:induction false} MemsShortest(ms: Mems, depth: nat, fp: Format)
    requires ValidMems(ms) && PlainestMems(ms, fp) && depth > 0
    ensures MemsDenote(ms) != []
    ensures Above(Flatten(MemsText(ms)), Flatten(MemsText(MembersTree(MemsDenote(ms), false, depth, fp))))
    decreases ms
  {
    hide Text, Flatten, EntryText, MemberTail, Tree, Denotes, Plainest, StringText, PiecesValue, Pieces;
    var members := MemsDenote(ms);
    var ms' := MembersTree(members, false, depth, fp);
    FlattenEntry(ms.m, MemsTail(ms));
    FlattenEntry(ms'.m, MemsTail(ms'));
    StringShortest(ms.m.key);
    CstShortest(ms.m.v, depth, fp);
    if ms.MoreMems? {
      MemsShortest(ms.rest, depth, fp);
      assert members[1..] == MemsDenote(ms.rest);
      FlattenCat(Byte(COMMA), MemsText(ms.rest));
      FlattenCat(Byte(COMMA), MemsText(ms'.rest));
    }
  }

  // --- The compact text is such a text -----------------------------------------------------

  lemma {:induction false} PiecesAreLower(s: bytes)
    ensures LowerPieces(Pieces(s))
    decreases |s|
  {
    if s != [] {
      PiecesAreLower(s[1..]);
    }
  }

  lemma {:induction false} TreePlainest(v: Value, depth: nat, fp: Format)
    requires Readable(v, fp)
    ensures Valid(Tree(v, false, depth, fp)) && Plainest(Tree(v, false, depth, fp), fp)
    decreases v, 1
  {
    TreeDenotes(v, false, depth, fp);
    match v
    case String(s) => PiecesAreLower(s);
    case Array(items) => if items != [] { ItemsPlainest(items, [], depth + 1, fp); }
    case Object(members) => if members != [] { MembersPlainest(members, depth + 1, fp); }
    case _ =>
  }

  lemma {:induction false} ItemsPlainest(items: seq<Value>, pre: bytes, depth: nat, fp: Format)
    requires items != [] && ReadableItems(items, fp) && ValidWs(pre)
    ensures ValidElems(ItemsTree(items, pre, false, depth, fp))
    ensures PlainestElems(ItemsTree(items, pre, false, depth, fp), fp)
    decreases items, 0
  {
    hide Tree, Plainest, Readable;
    ItemsTreeDenotes(items, pre, false, depth, fp);
    TreePlainest(items[0], depth, fp);
    if |items| > 1 {
      ItemsPlainest(items[1..], IfFormat(false, [SPACE]), depth, fp);
    }
  }

  lemma {:induction false} MembersPlainest(members: seq<Member>, depth: nat, fp: Format)
    requires members != [] && depth > 0 && ReadableMembers(members, fp)
    ensures ValidMems(MembersTree(members, false, depth, fp))
    ensures PlainestMems(MembersTree(members, false, depth, fp), fp)
    decreases members, 0
  {
    hide Tree, Plainest, Readable, Pieces;
    MembersTreeDenotes(members, false, depth, fp);
    PiecesAreLower(members[0].key);
    TreePlainest(members[0].value, depth, fp);
    if |members| > 1 {
      MembersPlainest(members[1..], depth, fp);
    }
  }

  /**
    * Of all documents that denote a tree, with hex digits in lower case and numerals as printf writes them,
    * the compact text is the shortest, and the only one of its length.
    */
  lemma ShortestText(v: Value, fp: Format)
    requires Readable(v, fp)
    ensures var text := Print(v, false, 0, fp);
      && (exists c :: Valid(c) && Denotes(c) == v && Plainest(c, fp) && Flatten(Text(c)) == text)
      && forall c | Valid(c) && Denotes(c) == v && Plainest(c, fp) ::
           |Flatten(Text(c))| > |text| || Flatten(Text(c)) == text
  {
    hide Valid, Denotes, Plainest, Flatten, Text, Print, Tree, Readable;
    TreeDenotes(v, false, 0, fp);
    TreeText(v, false, 0, fp);
    TreePlainest(v, 0, fp);
    forall c | Valid(c) && Denotes(c) == v && Plainest(c, fp)
      ensures Above(Flatten(Text(c)), Print(v, false, 0, fp))
    {
      CstShortest(c, 0, fp);
    }
  }

  /** An integer is printed as the one numeral without fraction, exponent or needless minus sign that denotes it. */
  lemma IntegerNumeral(d: real, n: Numeral, fp: Format)
    requires IsInt32(d) && ValidNumeral(n) && n.frac == None && n.exp == None
    requires n.neg ==> d != 0.0
    ensures NumeralText(n) == NumberText(d, fp) <==> NumeralValue(n) == d
  {
    var m := IntNumeral(d.Floor);
    IntNumeralValue(d.Floor);
    PlainValue(n);
    PlainValue(m);
    if NumeralValue(n) == d {
      SameDigits(n.whole, m.whole);
    }
    PlainText(n);
    PlainText(m);
    if NumeralText(n) == NumeralText(m) {
      assert n.neg == m.neg by { assert IsDigit(n.whole[0]) && IsDigit(m.whole[0]); }
      assert n.whole == (if n.neg then NumeralText(n)[1..] else NumeralText(n));
      assert m.whole == (if m.neg then NumeralText(m)[1..] else NumeralText(m));
    }
  }

  lemma PlainValue(n: Numeral)
    requires ValidNumeral(n) && n.frac == None && n.exp == None
    ensures NumeralValue(n) == (if n.neg then -(DigitsValue(n.whole) as real) else DigitsValue(n.whole) as real)
  {
    assert n.whole + [] == n.whole;
  }

  lemma PlainText(n: Numeral)
    requires n.frac == None && n.exp == None
    ensures NumeralText(n) == if n.neg then [MINUS] + n.whole else n.whole
  {
    assert n.whole + ([] + []) == n.whole;
  }

  /** Digits that do not begin with a needless 0 are determined by their value. */
  lemma {:induction false} SameDigits(a: bytes, b: bytes)
    requires a != [] && b != [] && AllDigits(a) && AllDigits(b)
    requires (|a| == 1 || a[0] != 48) && (|b| == 1 || b[0] != 48)
    requires DigitsValue(a) == DigitsValue(b)
    ensures a == b
    decreases |a|
  {
    var a', b' := a[..|a| - 1], b[..|b| - 1];
    assert a == a' + [a[|a| - 1]] && b == b' + [b[|b| - 1]];
    if a' == [] || b' == [] {
      if a' != [] { Positive(a'); }
      if b' != [] { Positive(b'); }
    } else {
      SameDigits(a', b');
    }
  }

  lemma {:induction false} Positive(a: bytes)
    requires a != [] && AllDigits(a) && a[0] != 48
    ensures DigitsValue(a) > 0
    decreases |a|
  {
    if |a| > 1 {
      Positive(a[..|a| - 1]);
    }
  }

  // --- The formatted text is the compact one laid out ----------------------------------------

  /** Outside a string, inside one, or behind its backslash. */
  datatype Place = Outside | Inside | Escaping

  /**
    * A compact text laid out, read from left to right: a line feed behind the brace that opens an object, in
    * front of the one that closes it and behind the commas between, each line indented by one tab for every
    * array and object that is open; a tab behind a colon, and a space behind a comma of an array. `open` says
    * of each array and object that is open whether it is an object, `first` that a brace was just opened.
    */
  function LayOut(t: bytes, open: seq<bool>, first: bool, place: Place): bytes
    decreases |t|
  {
    if t == [] then []
    else
      var b, rest := t[0], t[1..];
      match place
      case Inside =>
        [b] + LayOut(rest, open, false, if b == BACKSLASH then Escaping else if b == QUOTE then Outside else Inside)
      case Escaping => [b] + LayOut(rest, open, false, Inside)
      case Outside =>
        if b == QUOTE then (if first then Tabs(|open|) else []) + ([b] + LayOut(rest, open, false, Inside))
        else if b == LBRACE then [b, LF] + LayOut(rest, open + [true], true, Outside)
        else if b == LBRACKET then [b] + LayOut(rest, open + [false], false, Outside)
        else if b == RBRACE && open != [] then
          (if first then [] else [LF]) + (Tabs(|open| - 1) + ([b] + LayOut(rest, open[..|open| - 1], false, Outside)))
        else if b == RBRACKET && open != [] then [b] + LayOut(rest, open[..|open| - 1], false, Outside)
        else if b == COMMA && open != [] && open[|open| - 1] then
          [b, LF] + (Tabs(|open|) + LayOut(rest, open, false, Outside))
        else if b == COMMA then [b, SPACE] + LayOut(rest, open, false, Outside)
        else if b == COLON then [b, TAB] + LayOut(rest, open, false, Outside)
        else [b] + LayOut(rest, open, false, Outside)
  }

  /** Bytes that stand outside strings and change nothing. */
  predicate Quiet(t: bytes) {
    forall k | 0 <= k < |t| :: t[k] !in {QUOTE, LBRACE, RBRACE, LBRACKET, RBRACKET, COMMA, COLON}
  }

  lemma {:induction false} QuietLaid(t: bytes, rest: bytes, open: seq<bool>)
    requires Quiet(t)
    ensures LayOut(t + rest, open, false, Outside) == t + LayOut(rest, open, false, Outside)
    decreases |t|
  {
    if t == [] {
      assert t + rest == rest;
    } else {
      QuietLaid(t[1..], rest, open);
      assert (t + rest)[1..] == t[1..] + rest;
    }
  }

  lemma NumberQuiet(d: real, fp: Format)
    requires Readable(Number(d), fp)
    ensures Quiet(NumberText(d, fp))
  {
    hide Quiet, NumeralValue, IntNumeral;
    NumeralQuiet(NumberNumeral(d, fp));
  }

  lemma NumeralQuiet(n: Numeral)
    requires ValidNumeral(n)
    ensures Quiet(NumeralText(n))
  {
    hide Quiet;
    QuietParts(n);
    QuietBoth(FracText(n.frac), ExpText(n.exp));
    QuietBoth(n.whole, FracText(n.frac) + ExpText(n.exp));
    QuietBoth(SignText(n.neg), n.whole + (FracText(n.frac) + ExpText(n.exp)));
  }

  lemma QuietParts(n: Numeral)
    requires ValidNumeral(n)
    ensures Quiet(SignText(n.neg)) && Quiet(n.whole) && Quiet(FracText(n.frac)) && Quiet(ExpText(n.exp))
  {
    hide Quiet;
    QuietDigits(n.whole);
    assert Quiet([]) && Quiet([MINUS]) && Quiet([PLUS]) && Quiet([DOT]) && Quiet([101]) && Quiet([69]) by {
      QuietMarks();
    }
    if n.frac.Some? {
      QuietDigits(n.frac.value);
      QuietBoth([DOT], n.frac.value);
    }
    if n.exp.Some? {
      var x := n.exp.value;
      QuietDigits(x.digits);
      QuietBoth(x.sign, x.digits);
      QuietBoth([x.mark], x.sign + x.digits);
    }
  }

  lemma QuietMarks()
    ensures Quiet([]) && Quiet([MINUS]) && Quiet([PLUS]) && Quiet([DOT]) && Quiet([101]) && Quiet([69])
  {
  }

  lemma QuietDigits(ds: bytes)
    requires AllDigits(ds)
    ensures Quiet(ds)
  {
    assert forall k | 0 <= k < |ds| :: IsDigit(ds[k]);
  }

  lemma QuietBoth(a: bytes, b: bytes)
    requires Quiet(a) && Quiet(b)
    ensures Quiet(a + b)
  {
  }

  /** One byte of a string, as it is escaped. */
  lemma EscapeLaid(b: byte, rest: bytes, open: seq<bool>)
    ensures LayOut(EscapedByte(b) + rest, open, false, Inside) == EscapedByte(b) + LayOut(rest, open, false, Inside)
  {
    var e := EscapedByte(b);
    if |e| == 1 {
      assert (e + rest)[1..] == rest;
    } else if |e| == 2 {
      assert (e + rest)[1..][1..] == rest;
      assert (e + rest)[1..][0] == e[1];
    } else {
      InsideLaid(e[2..], rest, open);
      assert (e + rest)[1..][1..] == e[2..] + rest;
      assert (e + rest)[1..][0] == e[1];
    }
  }

  lemma {:induction false} InsideLaid(t: bytes, rest: bytes, open: seq<bool>)
    requires QUOTE !in t && BACKSLASH !in t
    ensures LayOut(t + rest, open, false, Inside) == t + LayOut(rest, open, false, Inside)
    decreases |t|
  {
    if t == [] {
      assert t + rest == rest;
    } else {
      InsideLaid(t[1..], rest, open);
      assert (t + rest)[1..] == t[1..] + rest;
    }
  }

  lemma {:induction false} EscapedLaid(s: bytes, rest: bytes, open: seq<bool>)
    ensures LayOut(Escaped(s) + rest, open, false, Inside) == Escaped(s) + LayOut(rest, open, false, Inside)
    decreases |s|
  {
    hide EscapedByte, LayOut;
    if s == [] {
      assert Escaped(s) + rest == rest;
    } else {
      Assoc(EscapedByte(s[0]), Escaped(s[1..]), rest);
      EscapeLaid(s[0], Escaped(s[1..]) + rest, open);
      EscapedLaid(s[1..], rest, open);
    }
  }

  /** A string is left as it is, indented when it is the first key of an object. */
  lemma QuotedLaid(s: bytes, rest: bytes, open: seq<bool>, first: bool)
    ensures LayOut(Quoted(s) + rest, open, first, Outside)
         == (if first then Tabs(|open|) else []) + (Quoted(s) + LayOut(rest, open, false, Outside))
  {
    hide Escaped;
    var body := Escaped(s) + ([QUOTE] + rest);
    assert Quoted(s) + rest == [QUOTE] + body;
    EscapedLaid(s, [QUOTE] + rest, open);
    assert ([QUOTE] + rest)[1..] == rest;
    assert LayOut([QUOTE] + rest, open, false, Inside) == [QUOTE] + LayOut(rest, open, false, Outside);
  }

  lemma {:induction false} ValueLaid(v: Value, rest: bytes, open: seq<bool>, fp: Format)
    requires Readable(v, fp)
    ensures LayOut(Print(v, false, |open|, fp) + rest, open, false, Outside)
         == Print(v, true, |open|, fp) + LayOut(rest, open, false, Outside)
    decreases v, 1
  {
    hide LayOut, NumberText, Quoted;
    match v
    case Null => QuietLaid(NULL_TEXT, rest, open);
    case Bool(b) => QuietLaid(if b then TRUE_TEXT else FALSE_TEXT, rest, open);
    case Number(d) =>
      NumberQuiet(d, fp);
      QuietLaid(NumberText(d, fp), rest, open);
    case String(s) => QuotedLaid(s, rest, open, false);
    case Array(items) => ArrayLaid(items, rest, open, fp);
    case Object(members) => ObjectLaid(members, rest, open, fp);
  }

  /** What happens to the first byte of a text. */
  lemma ByteLaid(b: byte, rest: bytes, open: seq<bool>, first: bool)
    ensures b == LBRACKET ==>
      LayOut([b] + rest, open, first, Outside) == [b] + LayOut(rest, open + [false], false, Outside)
    ensures b == LBRACE ==>
      LayOut([b] + rest, open, first, Outside) == [b, LF] + LayOut(rest, open + [true], true, Outside)
    ensures b == RBRACKET && open != [] ==>
      LayOut([b] + rest, open, first, Outside) == [b] + LayOut(rest, open[..|open| - 1], false, Outside)
    ensures b == RBRACE && open != [] ==>
      LayOut([b] + rest, open, first, Outside)
      == (if first then [] else [LF]) + (Tabs(|open| - 1) + ([b] + LayOut(rest, open[..|open| - 1], false, Outside)))
    ensures b == COMMA && open != [] ==>
      LayOut([b] + rest, open, first, Outside)
      == if open[|open| - 1] then [b, LF] + (Tabs(|open|) + LayOut(rest, open, false, Outside))
         else [b, SPACE] + LayOut(rest, open, false, Outside)
    ensures b == COLON ==> LayOut([b] + rest, open, first, Outside) == [b, TAB] + LayOut(rest, open, false, Outside)
  {
    assert ([b] + rest)[1..] == rest;
  }

  lemma {:induction false} ArrayLaid(items: seq<Value>, rest: bytes, open: seq<bool>, fp: Format)
    requires ReadableItems(items, fp)
    ensures LayOut(Print(Array(items), false, |open|, fp) + rest, open, false, Outside)
         == Print(Array(items), true, |open|, fp) + LayOut(rest, open, false, Outside)
    decreases items, 1
  {
    hide LayOut, PrintItems;
    var inner := open + [false];
    var p, p' := PrintItems(items, false, |inner|, fp), PrintItems(items, true, |inner|, fp);
    var z := LayOut(rest, open, false, Outside);
    Around([LBRACKET], p, [RBRACKET], rest);
    ByteLaid(LBRACKET, p + ([RBRACKET] + rest), open, false);
    ItemsLaid(items, [RBRACKET] + rest, inner, fp);
    ByteLaid(RBRACKET, rest, inner, false);
    assert inner[..|inner| - 1] == open;
    Around([LBRACKET], p', [RBRACKET], z);
  }

  lemma Around(a: bytes, p: bytes, b: bytes, rest: bytes)
    ensures (a + (p + b)) + rest == a + (p + (b + rest))
  {
    Assoc(a, p + b, rest);
    Assoc(p, b, rest);
  }

  lemma {:induction false} ItemsLaid(items: seq<Value>, rest: bytes, open: seq<bool>, fp: Format)
    requires ReadableItems(items, fp) && open != [] && !open[|open| - 1]
    ensures LayOut(PrintItems(items, false, |open|, fp) + rest, open, false, Outside)
         == PrintItems(items, true, |open|, fp) + LayOut(rest, open, false, Outside)
    decreases items, 0
  {
    hide LayOut, Print;
    if items == [] {
      var z := LayOut(rest, open, false, Outside);
      assert [] + rest == rest && [] + z == z;
    } else {
      var p, p' := Print(items[0], false, |open|, fp), Print(items[0], true, |open|, fp);
      var q, q' := PrintItems(items[1..], false, |open|, fp), PrintItems(items[1..], true, |open|, fp);
      var more := |items| > 1;
      var tail := q + rest;
      var z := LayOut(rest, open, false, Outside);
      Around(p, ItemEnd(more, false), q, rest);
      ValueLaid(items[0], ItemEnd(more, false) + tail, open, fp);
      ItemsLaid(items[1..], rest, open, fp);
      if more {
        assert ItemEnd(more, false) == [COMMA];
        ByteLaid(COMMA, tail, open, false);
      } else {
        assert [] + tail == tail && items[1..] == [];
      }
      Around(p', ItemEnd(more, true), q', z);
      assert ItemEnd(more, true) == if more then [COMMA, SPACE] else [];
      assert [] + (q' + z) == q' + z;
    }
  }

  lemma {:induction false} ObjectLaid(members: seq<Member>, rest: bytes, open: seq<bool>, fp: Format)
    requires ReadableMembers(members, fp)
    ensures LayOut(Print(Object(members), false, |open|, fp) + rest, open, false, Outside)
         == Print(Object(members), true, |open|, fp) + LayOut(rest, open, false, Outside)
    decreases members, 1
  {
    hide LayOut, PrintMembers, Tabs;
    var inner := open + [true];
    var p, p' := PrintMembers(members, false, |inner|, fp), PrintMembers(members, true, |inner|, fp);
    var z := LayOut(rest, open, false, Outside);
    var tabs := Tabs(|open|);
    assert Print(Object(members), false, |open|, fp) == [LBRACE] + (p + [RBRACE]);
    Around([LBRACE], p, [RBRACE], rest);
    ByteLaid(LBRACE, p + ([RBRACE] + rest), open, false);
    assert inner[..|inner| - 1] == open;
    if members == [] {
      assert p == p' == [] by { EmptyMembers(|inner|, fp); }
      assert p + ([RBRACE] + rest) == [RBRACE] + rest;
      ByteLaid(RBRACE, rest, inner, true);
      assert [LBRACE, LF] + ([] + (tabs + ([RBRACE] + z))) == ([LBRACE] + ([LF] + ([] + (tabs + [RBRACE])))) + z by {
        Frame4([LBRACE], [LF], [], tabs, [RBRACE], z);
        assert [LBRACE, LF] == [LBRACE] + [LF];
        Assoc([LBRACE], [LF], [] + (tabs + ([RBRACE] + z)));
      }
    } else {
      MembersLaid(members, rest, inner, fp);
      Frame4([LBRACE], [LF], p', tabs, [RBRACE], z);
      assert [LBRACE, LF] == [LBRACE] + [LF];
      Assoc([LBRACE], [LF], p' + (tabs + ([RBRACE] + z)));
    }
  }

  lemma EmptyMembers(depth: nat, fp: Format)
    ensures PrintMembers([], false, depth, fp) == PrintMembers([], true, depth, fp) == []
  {
  }

  lemma Frame4(a: bytes, b: bytes, c: bytes, d: bytes, e: bytes, rest: bytes)
    ensures (a + (b + (c + (d + e)))) + rest == a + (b + (c + (d + (e + rest))))
  {
    Assoc(a, b + (c + (d + e)), rest);
    Assoc(b, c + (d + e), rest);
    Assoc(c, d + e, rest);
    Assoc(d, e, rest);
  }

  /** The members of an object and the brace that closes it. */
  lemma {:induction false} MembersLaid(members: seq<Member>, rest: bytes, open: seq<bool>, fp: Format)
    requires members != [] && ReadableMembers(members, fp) && open != [] && open[|open| - 1]
    ensures LayOut(PrintMembers(members, false, |open|, fp) + ([RBRACE] + rest), open, true, Outside)
         == PrintMembers(members, true, |open|, fp)
            + (Tabs(|open| - 1) + ([RBRACE] + LayOut(rest, open[..|open| - 1], false, Outside)))
    decreases members, 0
  {
    hide LayOut, Print, Quoted, Tabs;
    var d := |open|;
    var more := |members| > 1;
    var close := [RBRACE] + rest;
    var z := Tabs(d - 1) + ([RBRACE] + LayOut(rest, open[..d - 1], false, Outside));
    var key := Quoted(members[0].key);
    var p, p' := Print(members[0].value, false, d, fp), Print(members[0].value, true, d, fp);
    var q, q' := PrintMembers(members[1..], false, d, fp), PrintMembers(members[1..], true, d, fp);
    var y := MemberEnd(more, false) + (q + close);
    assert PrintMembers(members, false, d, fp) + close == key + ([COLON] + (p + y)) by {
      CompactMember(members, d, fp);
      Frame4(key, [COLON], p, MemberEnd(more, false), q, close);
    }
    QuotedLaid(members[0].key, [COLON] + (p + y), open, true);
    ByteLaid(COLON, p + y, open, false);
    ValueLaid(members[0].value, y, open, fp);
    assert LayOut(y, open, false, Outside) == MemberEnd(more, true) + (q' + z) by {
      if more {
        assert y == [COMMA] + (q + close);
        ByteLaid(COMMA, q + close, open, false);
        MembersLaid(members[1..], rest, open, fp);
        FirstKey(members[1..], close, open, fp);
        assert MemberEnd(more, true) == [COMMA, LF];
      } else {
        assert members[1..] == [] && y == close;
        ByteLaid(RBRACE, rest, open, false);
        assert MemberEnd(more, true) == [LF] && q' + z == z;
      }
    }
    var w := MemberEnd(more, true) + (q' + z);
    assert [COLON, TAB] == [COLON] + [TAB];
    Assoc([COLON], [TAB], p' + w);
    Assoc(Tabs(d), key + ([COLON] + ([TAB] + (p' + (MemberEnd(more, true) + q')))), z);
    Frame4(key, [COLON], [TAB], p', MemberEnd(more, true) + q', z);
    Assoc(MemberEnd(more, true), q', z);
  }

  lemma CompactMember(members: seq<Member>, depth: nat, fp: Format)
    requires members != []
    ensures PrintMembers(members, false, depth, fp)
         == Quoted(members[0].key) + ([COLON] + (Print(members[0].value, false, depth, fp)
              + (MemberEnd(|members| > 1, false) + PrintMembers(members[1..], false, depth, fp))))
  {
    hide Quoted, Print, Tabs;
    assert IfFormat(false, Tabs(depth)) == [] && IfFormat(false, [TAB]) == [];
    var key := Quoted(members[0].key);
    var behind := Print(members[0].value, false, depth, fp)
                    + (MemberEnd(|members| > 1, false) + PrintMembers(members[1..], false, depth, fp));
    assert [] + behind == behind;
    assert [] + (key + ([COLON] + behind)) == key + ([COLON] + behind);
  }

  /** The first key of an object is indented; so is one behind a comma, by the comma. */
  lemma FirstKey(members: seq<Member>, rest: bytes, open: seq<bool>, fp: Format)
    requires members != []
    ensures LayOut(PrintMembers(members, false, |open|, fp) + rest, open, true, Outside)
         == Tabs(|open|) + LayOut(PrintMembers(members, false, |open|, fp) + rest, open, false, Outside)
  {
    hide LayOut, Print, Quoted, Tabs;
    var key := Quoted(members[0].key);
    CompactMember(members, |open|, fp);
    var x := [COLON] + (Print(members[0].value, false, |open|, fp)
               + (MemberEnd(|members| > 1, false) + PrintMembers(members[1..], false, |open|, fp)));
    Assoc(key, x, rest);
    QuotedLaid(members[0].key, x + rest, open, true);
    QuotedLaid(members[0].key, x + rest, open, false);
  }

  /** cJSON_Print is cJSON_PrintUnformatted and the layout, for any tree. */
  lemma FormattedIsLaidOut(v: Value, fp: Format)
    requires Readable(v, fp)
    ensures Print(v, true, 0, fp) == LayOut(Print(v, false, 0, fp), [], false, Outside)
  {
    hide Print, Readable;
    var t, t' := Print(v, false, 0, fp), Print(v, true, 0, fp);
    ValueLaid(v, [], [], fp);
    assert t + [] == t && t' + [] == t';
  }
}
