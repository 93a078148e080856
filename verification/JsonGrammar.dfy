/**
  * JSON texts by the grammar of sections 2 to 7 of RFC 8259: concrete syntax trees, the text each
  * one spells and the value it denotes. Independent of the parser.
  */
module JsonGrammar {
  import opened Bytes
  import opened JsonValue
  import opened Utf8Encoding
  import opened JsonStringSpec
  import opened JsonParseSpec

  /** The bytes of the tokens are the characters of section 2, and those of strings and numbers. */
  lemma Characters()
    ensures NULL_TEXT == Ascii("null") && TRUE_TEXT == Ascii("true") && FALSE_TEXT == Ascii("false")
    ensures [LBRACKET, RBRACKET, LBRACE, RBRACE, COLON, COMMA] == Ascii("[]{}:,")
    ensures [SPACE, TAB, LF, CR] == Ascii(" \t\n\r") && [QUOTE, BACKSLASH, SLASH] == Ascii("\"\\/")
    ensures [MINUS, PLUS, DOT] == Ascii("-+.")
    ensures [98, 102, 110, 114, 116, 117, 101, 69] == Ascii("bfnrtueE")
  {
  }

  /** The hex digits, in both cases, and nothing else. */
  lemma HexDigitsAre(b: byte)
    ensures IsHex(b) <==> exists n: nat :: n < 16 && (b == LowerHex(n) || b == UpperHex(n))
    ensures IsHex(b) ==> HexDigit(b) < 16 && (b == LowerHex(HexDigit(b)) || b == UpperHex(HexDigit(b)))
  {
    hide LowerHex, UpperHex;
    forall n: nat | n < 16
      ensures LowerHex(n) == (if n < 10 then 48 + n else 87 + n) && UpperHex(n) == (if n < 10 then 48 + n else 55 + n)
    {
      HexCharacters(n);
    }
    if IsHex(b) {
      assert b == LowerHex(HexDigit(b)) || b == UpperHex(HexDigit(b));
    }
  }

  function LowerHex(n: nat): byte
    requires n < 16
  {
    Ascii("0123456789abcdef")[n]
  }

  function UpperHex(n: nat): byte
    requires n < 16
  {
    Ascii("0123456789ABCDEF")[n]
  }

  lemma HexCharacters(n: nat)
    requires n < 16
    ensures LowerHex(n) == if n < 10 then 48 + n else 87 + n
    ensures UpperHex(n) == if n < 10 then 48 + n else 55 + n
  {
  }

  // --- Strings (section 7) -----------------------------------------------------------

  datatype Piece =
    | Plain(b: byte)                    // unescaped; a byte of a multi-byte character is >= 0x80
    | Short(c: byte)                    // two-character escape, c after the backslash
    | Hex(h: bytes)                     // \uXXXX
    | Pair(hi: bytes, lo: bytes)        // \uXXXX\uXXXX, a surrogate pair

  /** No control character, quote or backslash unescaped; no lone surrogate. */
  predicate ValidPiece(p: Piece) {
    match p
    case Plain(b) => b >= 32 && b != QUOTE && b != BACKSLASH
    case Short(c) => c in {QUOTE, BACKSLASH, SLASH, 98, 102, 110, 114, 116}
    case Hex(h) => IsHex4(h) && !IsSurrogate(Hex4(h))
    case Pair(hi, lo) => IsHex4(hi) && IsHex4(lo) && IsHighSurrogate(Hex4(hi)) && IsLowSurrogate(Hex4(lo))
  }

  function PieceText(p: Piece): (t: bytes)
    ensures t != []
  {
    match p
    case Plain(b) => [b]
    case Short(c) => [BACKSLASH, c]
    case Hex(h) => [BACKSLASH, 117] + h
    case Pair(hi, lo) => [BACKSLASH, 117] + hi + ([BACKSLASH, 117] + lo)
  }

  /** The code point of an escaped piece. */
  function PieceCodepoint(p: Piece): (cp: nat)
    requires ValidPiece(p) && (p.Hex? || p.Pair?)
    ensures IsScalar(cp)
  {
    match p
    case Hex(h) => Hex4(h)
    case Pair(hi, lo) => 0x10000 + (Hex4(hi) - 0xD800) * 0x400 + (Hex4(lo) - 0xDC00)
  }

  /** The bytes a piece stands for, in UTF-8. */
  function PieceValue(p: Piece): bytes
    requires ValidPiece(p)
  {
    match p
    case Plain(b) => [b]
    case Short(c) =>
      if c == 98 then [8] else if c == 102 then [12] else if c == 110 then [10]
      else if c == 114 then [13] else if c == 116 then [9] else [c]
    case Hex(_) => Utf8Bytes(PieceCodepoint(p))
    case Pair(_, _) => Utf8Bytes(PieceCodepoint(p))
  }

  predicate ValidPieces(ps: seq<Piece>) {
    forall k | 0 <= k < |ps| :: ValidPiece(ps[k])
  }

  function PiecesText(ps: seq<Piece>): bytes {
    if ps == [] then [] else PieceText(ps[0]) + PiecesText(ps[1..])
  }

  function PiecesValue(ps: seq<Piece>): bytes
    requires ValidPieces(ps)
  {
    if ps == [] then [] else PieceValue(ps[0]) + PiecesValue(ps[1..])
  }

  function StringText(ps: seq<Piece>): (t: bytes)
    ensures t != [] && t[0] == QUOTE
  {
    [QUOTE] + (PiecesText(ps) + [QUOTE])
  }

  // --- Values (sections 2 to 6) ------------------------------------------------------

  datatype Cst =
    | CNull | CTrue | CFalse
    | CNumber(n: Numeral)
    | CString(ps: seq<Piece>)
    | CEmptyArray(ws: bytes)
    | CArray(elems: Elems)
    | CEmptyObject(ws: bytes)
    | CObject(mems: Mems)

  /** Elements with the white space before and after each. */
  datatype Elems =
    | LastElem(pre: bytes, v: Cst, post: bytes)
    | MoreElems(pre: bytes, v: Cst, post: bytes, rest: Elems)

  datatype Entry = Entry(pre: bytes, key: seq<Piece>, mid: bytes, colon: bytes, v: Cst, post: bytes)

  datatype Mems = LastMem(m: Entry) | MoreMems(m: Entry, rest: Mems)

  /** ws of section 2. */
  predicate ValidWs(ws: bytes) {
    forall k | 0 <= k < |ws| :: ws[k] in {SPACE, TAB, LF, CR}
  }

  predicate Valid(c: Cst) {
    match c
    case CNumber(n) => ValidNumeral(n)
    case CString(ps) => ValidPieces(ps)
    case CEmptyArray(ws) => ValidWs(ws)
    case CArray(elems) => ValidElems(elems)
    case CEmptyObject(ws) => ValidWs(ws)
    case CObject(mems) => ValidMems(mems)
    case _ => true
  }

  predicate ValidElems(e: Elems) {
    ValidWs(e.pre) && Valid(e.v) && ValidWs(e.post) && (e.MoreElems? ==> ValidElems(e.rest))
  }

  predicate ValidEntry(m: Entry) {
    ValidWs(m.pre) && ValidPieces(m.key) && ValidWs(m.mid) && ValidWs(m.colon) && Valid(m.v) && ValidWs(m.post)
  }

  predicate ValidMems(ms: Mems) {
    ValidEntry(ms.m) && (ms.MoreMems? ==> ValidMems(ms.rest))
  }

  // --- Texts -------------------------------------------------------------------------

  /** A text given in pieces. */
  datatype Rope = Lit(t: bytes) | Cat(left: Rope, right: Rope)

  function Size(r: Rope): nat {
    match r
    case Lit(t) => |t|
    case Cat(a, b) => Size(a) + Size(b)
  }

  function Flatten(r: Rope): (t: bytes)
    ensures |t| == Size(r)
  {
    match r
    case Lit(t) => t
    case Cat(a, b) => Flatten(a) + Flatten(b)
  }

  function Byte(b: byte): Rope {
    Lit([b])
  }

  function Text(c: Cst): Rope {
    match c
    case CNull => Lit(NULL_TEXT)
    case CTrue => Lit(TRUE_TEXT)
    case CFalse => Lit(FALSE_TEXT)
    case CNumber(n) => Lit(NumeralText(n))
    case CString(ps) => Lit(StringText(ps))
    case CEmptyArray(ws) => Cat(Byte(LBRACKET), Cat(Lit(ws), Byte(RBRACKET)))
    case CArray(elems) => Cat(Byte(LBRACKET), ElemsText(elems))
    case CEmptyObject(ws) => Cat(Byte(LBRACE), Cat(Lit(ws), Byte(RBRACE)))
    case CObject(mems) => Cat(Byte(LBRACE), MemsText(mems))
  }

  /** The elements and the closing bracket. */
  function ElemsText(e: Elems): Rope {
    Cat(Lit(e.pre), Cat(Text(e.v), Cat(Lit(e.post),
      if e.MoreElems? then Cat(Byte(COMMA), ElemsText(e.rest)) else Byte(RBRACKET))))
  }

  /** What follows the colon of a member, and then `tail`. */
  function MemberTail(m: Entry, tail: Rope): Rope
    decreases m, 0
  {
    Cat(Lit(m.colon), Cat(Text(m.v), Cat(Lit(m.post), tail)))
  }

  /** A member, followed by the text `tail`. */
  function EntryText(m: Entry, tail: Rope): Rope
    decreases m, 1
  {
    Cat(Lit(m.pre), Cat(Lit(StringText(m.key)), Cat(Lit(m.mid), Cat(Byte(COLON), MemberTail(m, tail)))))
  }

  function MemsTail(ms: Mems): Rope
    decreases ms, 0
  {
    if ms.MoreMems? then Cat(Byte(COMMA), MemsText(ms.rest)) else Byte(RBRACE)
  }

  /** The members and the closing brace. */
  function MemsText(ms: Mems): Rope
    decreases ms, 1
  {
    EntryText(ms.m, MemsTail(ms))
  }

  function Denotes(c: Cst): Value
    requires Valid(c)
  {
    match c
    case CNull => Null
    case CTrue => Bool(true)
    case CFalse => Bool(false)
    case CNumber(n) => Number(NumeralValue(n))
    case CString(ps) => String(PiecesValue(ps))
    case CEmptyArray(_) => Array([])
    case CArray(elems) => Array(ElemsDenote(elems))
    case CEmptyObject(_) => Object([])
    case CObject(mems) => Object(MemsDenote(mems))
  }

  function ElemsDenote(e: Elems): (vs: seq<Value>)
    requires ValidElems(e)
  {
    if e.MoreElems? then [Denotes(e.v)] + ElemsDenote(e.rest) else [Denotes(e.v)]
  }

  function EntryDenotes(m: Entry): Member
    requires ValidEntry(m)
  {
    Member(PiecesValue(m.key), Denotes(m.v))
  }

  function MemsDenote(ms: Mems): (vs: seq<Member>)
    requires ValidMems(ms)
  {
    if ms.MoreMems? then [EntryDenotes(ms.m)] + MemsDenote(ms.rest) else [EntryDenotes(ms.m)]
  }

  function Depth(c: Cst): nat {
    match c
    case CArray(elems) => 1 + ElemsDepth(elems)
    case CObject(mems) => 1 + MemsDepth(mems)
    case CEmptyArray(_) => 1
    case CEmptyObject(_) => 1
    case _ => 0
  }

  function ElemsDepth(e: Elems): nat {
    Max(Depth(e.v), if e.MoreElems? then ElemsDepth(e.rest) else 0)
  }

  function MemsDepth(ms: Mems): nat {
    Max(Depth(ms.m.v), if ms.MoreMems? then MemsDepth(ms.rest) else 0)
  }

  /** A whole document: ws value ws. */
  datatype Document = Document(before: bytes, c: Cst, after: bytes)

  predicate ValidDocument(d: Document) {
    ValidWs(d.before) && Valid(d.c) && ValidWs(d.after)
  }

  function DocumentText(d: Document): Rope {
    Cat(Lit(d.before), Cat(Text(d.c), Lit(d.after)))
  }
}
