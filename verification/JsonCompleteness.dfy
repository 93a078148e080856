/** Every JSON text of the grammar is parsed, and to the value the grammar denotes. */
module JsonCompleteness {
  import opened Bytes
  import opened JsonValue
  import opened Utf8Encoding
  import opened JsonStringSpec
  import opened JsonParseSpec
  import opened JsonGrammar

  // --- Strings -----------------------------------------------------------------------

  /** A surrogate pair is decoded to the code point the grammar gives it. */
  lemma PairCodepointIs(hi: nat, lo: nat)
    requires IsHighSurrogate(hi) && IsLowSurrogate(lo)
    ensures PairCodepoint(hi, lo) == 0x10000 + (hi - 0xD800) * 0x400 + (lo - 0xDC00)
  {
    assert hi == 54 * 1024 + (hi - 0xD800);
    assert lo == 55 * 1024 + (lo - 0xDC00);
  }

  lemma HexEscape(s: bytes, p: nat, h: bytes)
    requires |h| == 4 && At(s, p, [BACKSLASH, 117] + h)
    ensures s[p] == BACKSLASH && s[p + 1] == 117 && s[p + 2..p + 6] == h
  {
    AtSplit(s, p, [BACKSLASH, 117], h);
    AtIndex(s, p, [BACKSLASH, 117], 0);
    AtIndex(s, p, [BACKSLASH, 117], 1);
  }

  lemma PairIs(s: bytes, p: nat, end: nat, hi: bytes, lo: bytes)
    requires ValidPiece(Pair(hi, lo))
    requires At(s, p, PieceText(Pair(hi, lo))) && p + 12 <= end <= |s|
    ensures s[p] == BACKSLASH && s[p + 1] == 117
    ensures EscapeAt(s, p, end) == Some((PieceCodepoint(Pair(hi, lo)), 12))
  {
    AtSplit(s, p, [BACKSLASH, 117] + hi, [BACKSLASH, 117] + lo);
    HexEscape(s, p, hi);
    HexEscape(s, p + 6, lo);
    PairCodepointIs(Hex4(hi), Hex4(lo));
  }

  lemma EscapeIs(s: bytes, p: nat, end: nat, piece: Piece)
    requires ValidPiece(piece) && (piece.Hex? || piece.Pair?)
    requires At(s, p, PieceText(piece)) && p + |PieceText(piece)| <= end <= |s|
    ensures s[p] == BACKSLASH && s[p + 1] == 117
    ensures EscapeAt(s, p, end) == Some((PieceCodepoint(piece), |PieceText(piece)|))
  {
    match piece
    case Hex(h) => HexEscape(s, p, h);
    case Pair(hi, lo) => PairIs(s, p, end, hi, lo);
  }

  /** The first scan finds the closing quote and the second pass writes the denoted bytes. */
  lemma {:induction false} PiecesParsed(s: bytes, p: nat, ps: seq<Piece>, end: nat)
    requires ValidPieces(ps) && At(s, p, PiecesText(ps) + [QUOTE])
    requires end == p + |PiecesText(ps)|
    ensures end < |s| && ScanEnd(s, p) == Some(end)
    ensures DecodeBody(s, p, end) == Decoded(PiecesValue(ps), true, end)
    decreases |ps|
  {
    hide At, EscapeAt, PieceText, PieceValue, SimpleEscape;
    AtSplit(s, p, PiecesText(ps), [QUOTE]);
    AtIndex(s, end, [QUOTE], 0);
    if ps != [] {
      var t := PieceText(ps[0]);
      assert PiecesText(ps) + [QUOTE] == t + (PiecesText(ps[1..]) + [QUOTE]);
      AtSplit(s, p, t, PiecesText(ps[1..]) + [QUOTE]);
      PiecesParsed(s, p + |t|, ps[1..], end);
      PieceScanned(s, p, ps[0], end);
      PieceDecoded(s, p, ps[0], end);
    }
  }

  /** The second pass writes the bytes of one piece and steps over it. */
  lemma PieceDecoded(s: bytes, p: nat, piece: Piece, end: nat)
    requires ValidPiece(piece) && At(s, p, PieceText(piece)) && p + |PieceText(piece)| <= end < |s|
    ensures DecodeBody(s, p, end) == Prepend(PieceValue(piece), DecodeBody(s, p + |PieceText(piece)|, end))
  {
    hide At, EscapeAt, PieceCodepoint, Utf8Bytes;
    if piece.Hex? || piece.Pair? {
      EscapeIs(s, p, end, piece);
    } else {
      AtIndex(s, p, PieceText(piece), 0);
      AtIndex(s, p, PieceText(piece), |PieceText(piece)| - 1);
    }
  }

  lemma PieceScanned(s: bytes, p: nat, piece: Piece, end: nat)
    requires ValidPiece(piece) && At(s, p, PieceText(piece)) && p + |PieceText(piece)| <= end < |s|
    requires ScanEnd(s, p + |PieceText(piece)|) == Some(end)
    ensures ScanEnd(s, p) == Some(end)
    ensures s[p] == PieceText(piece)[0]
  {
    AtIndex(s, p, PieceText(piece), 0);
    match piece
    case Plain(_) =>
    case Short(_) =>
    case Hex(h) =>
      HexScanned(s, p, h);
    case Pair(hi, lo) =>
      AtSplit(s, p, [BACKSLASH, 117] + hi, [BACKSLASH, 117] + lo);
      HexScanned(s, p + 6, lo);
      HexScanned(s, p, hi);
  }

  lemma HexScanned(s: bytes, p: nat, h: bytes)
    requires IsHex4(h) && At(s, p, [BACKSLASH, 117] + h)
    ensures ScanEnd(s, p) == ScanEnd(s, p + 6)
  {
    HexEscape(s, p, h);
    assert s[p + 2] == h[0] && s[p + 3] == h[1] && s[p + 4] == h[2] && s[p + 5] == h[3];
    assert ScanEnd(s, p) == ScanEnd(s, p + 2);
    assert ScanEnd(s, p + 2) == ScanEnd(s, p + 3);
    assert ScanEnd(s, p + 3) == ScanEnd(s, p + 4);
    assert ScanEnd(s, p + 4) == ScanEnd(s, p + 5);
  }

  lemma StringParsed(s: bytes, p: nat, ps: seq<Piece>)
    requires ValidPieces(ps) && At(s, p, StringText(ps))
    ensures LiteralAt(s, p) == Some((PiecesValue(ps), p + |StringText(ps)|))
  {
    hide At, PiecesText, PiecesValue;
    AtHead(s, p, QUOTE, PiecesText(ps) + [QUOTE]);
    PiecesParsed(s, p + 1, ps, p + 1 + |PiecesText(ps)|);
  }

  // --- Numbers -----------------------------------------------------------------------

  lemma {:induction false} DigitsEndIs(t: bytes, i: nat, ds: bytes)
    requires AllDigits(ds) && At(t, i, ds)
    requires i + |ds| < |t| ==> !IsDigit(t[i + |ds|])
    ensures DigitsEnd(t, i) == i + |ds|
    decreases |ds|
  {
    if ds != [] {
      AtHead(t, i, ds[0], ds[1..]) by { assert [ds[0]] + ds[1..] == ds; }
      DigitsEndIs(t, i + 1, ds[1..]);
    }
  }

  lemma ExponentStep(t: bytes, i: nat, j: nat, k: nat)
    requires i < |t| && (t[i] == 101 || t[i] == 69)
    requires j == (if IsSign(t, i + 1) then i + 2 else i + 1)
    requires j < k == DigitsEnd(t, j)
    ensures AllDigits(t[j..k]) && ExponentAt(t, i) ==
      (k, if t[i + 1] == MINUS then -(DigitsValue(t[j..k]) as int) else DigitsValue(t[j..k]) as int)
  {
    hide DigitsValue;
  }

  lemma SignIs(t: bytes, i: nat, sign: bytes, digits: bytes)
    requires At(t, i, sign + digits) && digits != [] && AllDigits(digits)
    requires sign == [] || sign == [PLUS] || sign == [MINUS]
    ensures IsSign(t, i) == (sign != [])
    ensures i < |t| && (t[i] == MINUS) == (sign == [MINUS])
    ensures At(t, i + |sign|, digits)
  {
    hide At;
    AtSplit(t, i, sign, digits);
    AtIndex(t, i + |sign|, digits, 0);
    if sign != [] {
      AtIndex(t, i, sign, 0);
    }
  }

  lemma ExponentRead(t: bytes, i: nat, e: Exponent)
    requires ValidExponent(e) && i < |t| && t[i] == e.mark && At(t, i + 1, e.sign + e.digits)
    requires i + 1 + |e.sign| + |e.digits| == |t|
    ensures ExponentAt(t, i) == (|t|, ExpValue(Some(e)))
  {
    hide At, DigitsValue, ExponentAt;
    var j := i + 1 + |e.sign|;
    SignIs(t, i + 1, e.sign, e.digits);
    DigitsEndIs(t, j, e.digits);
    AtSlice(t, j, e.digits);
    ExponentStep(t, i, j, |t|);
  }

  lemma ExponentIs(t: bytes, i: nat, x: Option<Exponent>)
    requires x.Some? ==> ValidExponent(x.value)
    requires At(t, i, ExpText(x)) && i + |ExpText(x)| == |t|
    ensures ExponentAt(t, i) == (|t|, ExpValue(x))
  {
    hide At, DigitsValue, ExponentAt, ExpValue;
    if x.Some? {
      var e := x.value;
      AtHead(t, i, e.mark, e.sign + e.digits);
      ExponentRead(t, i, e);
    } else {
      assert ExpValue(x) == 0 by { NoExpValue(); }
      NoExponent(t);
    }
  }

  lemma NoExpValue()
    ensures ExpValue(None) == 0
  {
  }

  lemma NoExponent(t: bytes)
    ensures ExponentAt(t, |t|) == (|t|, 0)
  {
  }

  /** Where the parts of a numeral lie in its text. */
  lemma NumeralLayout(n: Numeral, t: bytes)
    requires ValidNumeral(n) && t == NumeralText(n)
    ensures var i0 := |SignText(n.neg)|; var i1 := i0 + |n.whole|; var i2 := i1 + |FracText(n.frac)|;
      && At(t, 0, SignText(n.neg)) && At(t, i0, n.whole) && At(t, i1, FracText(n.frac))
      && At(t, i2, ExpText(n.exp)) && i2 + |ExpText(n.exp)| == |t|
  {
    hide At;
    hide FracText, ExpText, SignText;
    var sign := SignText(n.neg);
    AtWhole(t);
    AtSplit(t, 0, sign, n.whole + (FracText(n.frac) + ExpText(n.exp)));
    AtSplit(t, |sign|, n.whole, FracText(n.frac) + ExpText(n.exp));
    AtSplit(t, |sign| + |n.whole|, FracText(n.frac), ExpText(n.exp));
  }

  lemma ExpStarts(t: bytes, i: nat, x: Option<Exponent>)
    requires x.Some? ==> ValidExponent(x.value)
    requires At(t, i, ExpText(x)) && i + |ExpText(x)| == |t|
    ensures if x.Some? then i < |t| && t[i] == x.value.mark else i == |t|
  {
    if x.Some? {
      AtHead(t, i, x.value.mark, x.value.sign + x.value.digits);
    }
  }

  /** The fraction part: the digits between the point and the exponent. */
  lemma FracIs(t: bytes, i: nat, f: Option<bytes>, e: nat)
    requires f.Some? ==> AllDigits(f.value)
    requires At(t, i, FracText(f)) && e == i + |FracText(f)| <= |t|
    requires e < |t| ==> !IsDigit(t[e]) && t[e] != DOT
    ensures f.Some? ==> i < |t| && t[i] == DOT && DigitsEnd(t, i + 1) == e && t[i + 1..e] == f.value
    ensures f.None? ==> e == i && (i < |t| ==> t[i] != DOT)
  {
    if f.Some? {
      AtHead(t, i, DOT, f.value);
      AtSlice(t, i + 1, f.value);
      DigitsEndIs(t, i + 1, f.value);
    }
  }

  /** strtod by positions: the digits end at `i1`, the fraction at `i2`, the exponent at the end. */
  lemma StrToDStep(t: bytes, i0: nat, i1: nat, dot: bool, i2: nat, end: nat, e: int)
    requires i0 == (if IsSign(t, 0) then 1 else 0) && i0 < i1 == DigitsEnd(t, i0)
    requires dot == (i1 < |t| && t[i1] == DOT)
    requires i2 == (if dot then DigitsEnd(t, i1 + 1) else i1)
    requires ExponentAt(t, i2) == (end, e)
    ensures var f0 := if dot then i1 + 1 else i1;
      StrToD(t) == Some((end, Scaled(i0 == 1 && t[0] == MINUS,
                                     DigitsValue(Glue(t[i0..i1], t[f0..i2])), e - (i2 - f0))))
  {
    hide DigitsValue, Scaled, ExponentAt, DigitsEnd;
  }

  lemma NumeralCombined(n: Numeral, t: bytes, i0: nat, i1: nat, i2: nat)
    requires ValidNumeral(n) && i0 == |SignText(n.neg)| && i0 < i1 <= i2 <= |t|
    requires IsSign(t, 0) == n.neg && (n.neg ==> t[0] == MINUS)
    requires DigitsEnd(t, i0) == i1 && t[i0..i1] == n.whole
    requires n.frac.Some? == (i1 < |t| && t[i1] == DOT)
    requires if n.frac.Some? then DigitsEnd(t, i1 + 1) == i2 else i2 == i1
    requires t[if n.frac.Some? then i1 + 1 else i1..i2] == FracDigits(n.frac)
    requires ExponentAt(t, i2) == (|t|, ExpValue(n.exp))
    ensures StrToD(t) == Some((|t|, NumeralValue(n)))
  {
    hide DigitsValue, Scaled;
    StrToDStep(t, i0, i1, n.frac.Some?, i2, |t|, ExpValue(n.exp));
  }

  /** strtod reads a whole numeral of the grammar, and reads it as the number it denotes. */
  lemma NumeralRead(n: Numeral, t: bytes)
    requires ValidNumeral(n) && t == NumeralText(n)
    ensures StrToD(t) == Some((|t|, NumeralValue(n)))
  {
    hide At, NumeralText, StrToD, NumeralValue;
    var i0 := |SignText(n.neg)|;
    var i1 := i0 + |n.whole|;
    var i2 := i1 + |FracText(n.frac)|;
    NumeralLayout(n, t);
    NumeralPositions(n, t, i0, i1, i2);
    NumeralCombined(n, t, i0, i1, i2);
  }

  lemma NumeralPositions(n: Numeral, t: bytes, i0: nat, i1: nat, i2: nat)
    requires ValidNumeral(n) && i0 == |SignText(n.neg)|
    requires i1 == i0 + |n.whole| && i2 == i1 + |FracText(n.frac)| && i2 + |ExpText(n.exp)| == |t|
    requires At(t, 0, SignText(n.neg)) && At(t, i0, n.whole) && At(t, i1, FracText(n.frac)) && At(t, i2, ExpText(n.exp))
    ensures IsSign(t, 0) == n.neg && (n.neg ==> t[0] == MINUS)
    ensures DigitsEnd(t, i0) == i1 && t[i0..i1] == n.whole
    ensures n.frac.Some? == (i1 < |t| && t[i1] == DOT)
    ensures n.frac.Some? ==> DigitsEnd(t, i1 + 1) == i2
    ensures t[if n.frac.Some? then i1 + 1 else i1..i2] == FracDigits(n.frac)
    ensures ExponentAt(t, i2) == (|t|, ExpValue(n.exp))
  {
    hide At, DigitsValue;
    AtSlice(t, i0, n.whole);
    ExpStarts(t, i2, n.exp);
    FracIs(t, i1, n.frac, i2);
    DigitsEndIs(t, i0, n.whole);
    ExponentIs(t, i2, n.exp);
    if n.neg { AtIndex(t, 0, SignText(true), 0); } else { AtIndex(t, 0, n.whole, 0); }
  }

  /** A numeral consists of number characters and starts with a minus or a digit. */
  lemma NumeralChars(n: Numeral)
    requires ValidNumeral(n)
    ensures NumberChars(NumeralText(n))
    ensures NumeralText(n) != [] && (NumeralText(n)[0] == MINUS || IsDigit(NumeralText(n)[0]))
  {
    hide NumberChars;
    assert NumberChars(SignText(n.neg)) && NumberChars(n.whole) && NumberChars(FracText(n.frac)) by {
      CharsOfDigits(n.whole);
      CharsOfDigits(FracDigits(n.frac));
      if n.frac.Some? { CharsJoined([DOT], n.frac.value); }
    }
    if n.exp.Some? {
      var x := n.exp.value;
      CharsOfDigits(x.digits);
      CharsJoined(x.sign, x.digits);
      CharsJoined([x.mark], x.sign + x.digits);
    }
    CharsJoined(FracText(n.frac), ExpText(n.exp));
    CharsJoined(n.whole, FracText(n.frac) + ExpText(n.exp));
    CharsJoined(SignText(n.neg), n.whole + (FracText(n.frac) + ExpText(n.exp)));
  }

  predicate NumberChars(t: bytes)
    ensures t == [] ==> NumberChars(t)
    ensures |t| == 1 && IsNumberChar(t[0]) ==> NumberChars(t)
  {
    forall k | 0 <= k < |t| :: IsNumberChar(t[k])
  }

  lemma CharsOfDigits(ds: bytes)
    requires AllDigits(ds)
    ensures NumberChars(ds)
  {
  }

  lemma CharsJoined(a: bytes, b: bytes)
    requires NumberChars(a) && NumberChars(b)
    ensures NumberChars(a + b)
  {
  }

  lemma {:induction false} RunEndIs(s: bytes, i: nat, t: bytes)
    requires At(s, i, t) && NumberChars(t)
    requires NumberEnds(s, i + |t|)
    ensures RunEnd(s, i) == i + |t|
    decreases |t|
  {
    if t != [] {
      AtHead(s, i, t[0], t[1..]) by { assert [t[0]] + t[1..] == t; }
      RunEndIs(s, i + 1, t[1..]);
    }
  }

  /** What may follow a number in a text: anything but another number character. */
  predicate NumberEnds(s: bytes, i: nat) {
    i < |s| ==> !IsNumberChar(s[i])
  }

  // --- Texts in pieces ---------------------------------------------------------------

  /** The rope `r` is spelled in `s` from position `i`. */
  predicate Spells(s: bytes, i: nat, r: Rope)
    decreases r
  {
    match r
    case Lit(t) => At(s, i, t)
    case Cat(a, b) => Spells(s, i, a) && Spells(s, i + Size(a), b)
  }

  lemma {:induction false} SpellsText(s: bytes, i: nat, r: Rope)
    requires At(s, i, Flatten(r))
    ensures Spells(s, i, r)
    decreases r
  {
    if r.Cat? {
      AtSplit(s, i, Flatten(r.left), Flatten(r.right));
      SpellsText(s, i, r.left);
      SpellsText(s, i + Size(r.left), r.right);
    }
  }

  lemma {:induction false} SpelledInside(s: bytes, i: nat, r: Rope)
    requires Spells(s, i, r)
    ensures i + Size(r) <= |s|
    decreases r
  {
    if r.Cat? {
      SpelledInside(s, i + Size(r.left), r.right);
    }
  }

  lemma CatSpelled(s: bytes, i: nat, a: Rope, b: Rope)
    requires Spells(s, i, Cat(a, b))
    ensures Spells(s, i, a) && Spells(s, i + Size(a), b) && Size(Cat(a, b)) == Size(a) + Size(b)
  {
  }

  lemma ByteSpelled(s: bytes, i: nat, b: byte)
    requires Spells(s, i, Byte(b))
    ensures i < |s| && s[i] == b && Size(Byte(b)) == 1
  {
    AtIndex(s, i, [b], 0);
  }

  // --- White space and first bytes ---------------------------------------------------

  lemma {:induction false} WsSkipped(s: bytes, i: nat, ws: bytes)
    requires ValidWs(ws) && Spells(s, i, Lit(ws))
    requires i + |ws| < |s| ==> !IsBlank(s[i + |ws|])
    ensures SkipBlanks(s, i) == i + |ws|
    ensures |ws| > 0 ==> IsBlank(s[i])
    decreases |ws|
  {
    if ws != [] {
      AtHead(s, i, ws[0], ws[1..]) by { assert [ws[0]] + ws[1..] == ws; }
      WsSkipped(s, i + 1, ws[1..]);
    }
  }

  /** The first byte of a spelled value tells its kind, and is neither blank nor a closing bracket. */
  lemma FirstByte(s: bytes, i: nat, c: Cst)
    requires Valid(c) && Spells(s, i, Text(c))
    ensures i < |s| && Size(Text(c)) > 0
    ensures match c
      case CNull => s[i] == 110
      case CTrue => s[i] == 116
      case CFalse => s[i] == 102
      case CNumber(_) => s[i] == MINUS || IsDigit(s[i])
      case CString(_) => s[i] == QUOTE
      case CEmptyArray(_) => s[i] == LBRACKET
      case CArray(_) => s[i] == LBRACKET
      case CEmptyObject(_) => s[i] == LBRACE
      case CObject(_) => s[i] == LBRACE
  {
    match c
    case CNull => AtIndex(s, i, NULL_TEXT, 0);
    case CTrue => AtIndex(s, i, TRUE_TEXT, 0);
    case CFalse => AtIndex(s, i, FALSE_TEXT, 0);
    case CNumber(n) => NumeralChars(n); AtIndex(s, i, NumeralText(n), 0);
    case CString(ps) => AtIndex(s, i, StringText(ps), 0);
    case CEmptyArray(_) => ByteSpelled(s, i, LBRACKET);
    case CArray(_) => ByteSpelled(s, i, LBRACKET);
    case CEmptyObject(_) => ByteSpelled(s, i, LBRACE);
    case CObject(_) => ByteSpelled(s, i, LBRACE);
  }

  // --- Values ------------------------------------------------------------------------

  lemma ScalarParsed(s: bytes, i: nat, depth: int, c: Cst)
    requires Valid(c) && Spells(s, i, Text(c))
    requires c.CNull? || c.CTrue? || c.CFalse? || c.CNumber? || c.CString?
    requires c.CNumber? ==> NumberEnds(s, i + Size(Text(c)))
    ensures i <= |s| && ValueAt(s, i, depth) == Done(Denotes(c), i + Size(Text(c)))
  {
    hide At, StringText, LiteralAt, StrToD, NumeralText, NumeralValue;
    FirstByte(s, i, c);
    NoLiteral(s, i);
    match c
    case CNumber(n) =>
      NumeralChars(n);
      RunEndIs(s, i, NumeralText(n));
      AtSlice(s, i, NumeralText(n));
      NumeralRead(n, NumeralText(n));
    case CString(ps) =>
      StringParsed(s, i, ps);
    case _ =>
  }

  lemma EmptyParsed(s: bytes, i: nat, depth: int, c: Cst)
    requires Valid(c) && Spells(s, i, Text(c)) && depth < NESTING_LIMIT
    requires c.CEmptyArray? || c.CEmptyObject?
    ensures i <= |s| && ValueAt(s, i, depth) == Done(Denotes(c), i + Size(Text(c)))
  {
    hide At, LiteralAt, StrToD;
    FirstByte(s, i, c);
    NoLiteral(s, i);
    var (open, close) := if c.CEmptyArray? then (LBRACKET, RBRACKET) else (LBRACE, RBRACE);
    CatSpelled(s, i, Byte(open), Cat(Lit(c.ws), Byte(close)));
    CatSpelled(s, i + 1, Lit(c.ws), Byte(close));
    ByteSpelled(s, i + 1 + |c.ws|, close);
    WsSkipped(s, i + 1, c.ws);
  }

  /** A value of the grammar, at any position of any buffer, is parsed to what it denotes. */
  lemma {:induction false} ValueParsed(s: bytes, i: nat, depth: int, c: Cst)
    requires Valid(c) && Spells(s, i, Text(c)) && depth + Depth(c) <= NESTING_LIMIT
    requires c.CNumber? ==> NumberEnds(s, i + Size(Text(c)))
    ensures i <= |s| && ValueAt(s, i, depth) == Done(Denotes(c), i + Size(Text(c)))
    decreases c, 0
  {
    hide At, Spells, ElementsAt, MembersAt, LiteralAt, StrToD;
    match c
    case CArray(elems) =>
      CatSpelled(s, i, Byte(LBRACKET), ElemsText(elems));
      FirstByte(s, i, c);
      NoLiteral(s, i);
      ElemsParsed(s, i + 1, depth + 1, elems);
    case CObject(mems) =>
      CatSpelled(s, i, Byte(LBRACE), MemsText(mems));
      FirstByte(s, i, c);
      NoLiteral(s, i);
      MemsParsed(s, i + 1, depth + 1, mems);
    case CEmptyArray(_) => EmptyParsed(s, i, depth, c);
    case CEmptyObject(_) => EmptyParsed(s, i, depth, c);
    case _ => ScalarParsed(s, i, depth, c);
  }

  /** A byte that may end a value in a container. */
  predicate Ends(b: byte) {
    b == COMMA || b == RBRACKET || b == RBRACE
  }

  /** White space, a value, white space, and a byte that ends it. */
  lemma {:induction false} SpacedValueParsed(s: bytes, i: nat, depth: int, pre: bytes, c: Cst, post: bytes)
      returns (k: nat, p: nat, q: nat)
    requires ValidWs(pre) && Valid(c) && ValidWs(post) && depth + Depth(c) <= NESTING_LIMIT
    requires Spells(s, i, Lit(pre)) && Spells(s, i + |pre|, Text(c)) && Spells(s, i + |pre| + Size(Text(c)), Lit(post))
    requires var e := i + |pre| + Size(Text(c)) + |post|; e < |s| && Ends(s[e])
    ensures k == i + |pre| && p == k + Size(Text(c)) && q == p + |post|
    ensures SkipBlanks(s, i) == k && k < |s| && s[k] != RBRACKET && s[k] != RBRACE
    ensures ValueAt(s, k, depth) == Done(Denotes(c), p) && SkipBlanks(s, p) == q
    decreases c, 1
  {
    hide At, Spells, Text, ValueAt, Denotes;
    k := i + |pre|;
    p := k + Size(Text(c));
    q := p + |post|;
    FirstByte(s, k, c);
    WsSkipped(s, i, pre);
    WsSkipped(s, p, post);
    ValueParsed(s, k, depth, c);
  }

  /** One element and the comma or bracket after it, by positions. */
  lemma ElementsStep(s: bytes, i: nat, depth: int, v: Parsed<Value>, q: nat)
    requires i <= |s| && v.Done? && ValueAt(s, SkipBlanks(s, i), depth) == v && SkipBlanks(s, v.next) == q < |s|
    ensures s[q] == RBRACKET ==> ElementsAt(s, i, depth) == Done([v.value], q + 1)
    ensures s[q] == COMMA && ElementsAt(s, q + 1, depth).Done? ==>
      ElementsAt(s, i, depth) ==
        Done([v.value] + ElementsAt(s, q + 1, depth).value, ElementsAt(s, q + 1, depth).next)
  {
    hide ValueAt;
  }

  /** The parts of a list of elements, by positions. */
  lemma ElemsSpelled(s: bytes, i: nat, e: Elems)
    requires Spells(s, i, ElemsText(e))
    ensures var k := i + |e.pre|; var p := k + Size(Text(e.v)); var q := p + |e.post|;
      && Spells(s, i, Lit(e.pre)) && Spells(s, k, Text(e.v)) && Spells(s, p, Lit(e.post))
      && q < |s| && s[q] == (if e.MoreElems? then COMMA else RBRACKET)
      && i + Size(ElemsText(e)) == q + 1 + (if e.MoreElems? then Size(ElemsText(e.rest)) else 0)
      && (e.MoreElems? ==> Spells(s, q + 1, ElemsText(e.rest)))
  {
    hide At, Text;
    var end := if e.MoreElems? then COMMA else RBRACKET;
    var r4 := if e.MoreElems? then Cat(Byte(COMMA), ElemsText(e.rest)) else Byte(RBRACKET);
    var r3 := Cat(Lit(e.post), r4);
    var r2 := Cat(Text(e.v), r3);
    CatSpelled(s, i, Lit(e.pre), r2);
    CatSpelled(s, i + |e.pre|, Text(e.v), r3);
    CatSpelled(s, i + |e.pre| + Size(Text(e.v)), Lit(e.post), r4);
    var q := i + |e.pre| + Size(Text(e.v)) + |e.post|;
    if e.MoreElems? {
      CatSpelled(s, q, Byte(COMMA), ElemsText(e.rest));
    }
    ByteSpelled(s, q, end);
  }

  lemma {:induction false} ElemsParsed(s: bytes, i: nat, depth: int, e: Elems)
    requires ValidElems(e) && Spells(s, i, ElemsText(e)) && depth + ElemsDepth(e) <= NESTING_LIMIT
    ensures i <= |s| && ElementsAt(s, i, depth) == Done(ElemsDenote(e), i + Size(ElemsText(e)))
    ensures SkipBlanks(s, i) < |s| && s[SkipBlanks(s, i)] != RBRACKET
    decreases e
  {
    hide At, Spells, Text, ValueAt;
    ElemsSpelled(s, i, e);
    var k, p, q := SpacedValueParsed(s, i, depth, e.pre, e.v, e.post);
    ElementsStep(s, i, depth, Done(Denotes(e.v), p), q);
    if e.MoreElems? {
      ElemsParsed(s, q + 1, depth, e.rest);
    }
  }

  /** A member up to the byte that ends it, by positions. */
  lemma MemberStep(s: bytes, i: nat, depth: int, key: (bytes, nat), c: nat, v: Parsed<Value>)
    requires i <= |s| && LiteralAt(s, SkipBlanks(s, i)) == Some(key)
    requires SkipBlanks(s, key.1) == c < |s| && s[c] == COLON
    requires v.Done? && ValueAt(s, SkipBlanks(s, c + 1), depth) == v
    ensures MemberAt(s, i, depth) == Done(Member(key.0, v.value), v.next)
  {
    hide LiteralAt, ValueAt;
  }

  /** The parts of a member up to its colon, and after it. */
  lemma KeySpelled(s: bytes, i: nat, m: Entry, tail: Rope)
    requires Spells(s, i, EntryText(m, tail))
    ensures var k := i + |m.pre|; var a := k + |StringText(m.key)|; var c := a + |m.mid|;
      && Spells(s, i, Lit(m.pre)) && At(s, k, StringText(m.key)) && s[k] == QUOTE && Spells(s, a, Lit(m.mid))
      && c < |s| && s[c] == COLON && Spells(s, c + 1, MemberTail(m, tail))
      && i + Size(EntryText(m, tail)) == c + 1 + Size(MemberTail(m, tail))
  {
    hide At, Text, StringText, MemberTail;
    var r4 := Cat(Byte(COLON), MemberTail(m, tail));
    var r3 := Cat(Lit(m.mid), r4);
    var r2 := Cat(Lit(StringText(m.key)), r3);
    CatSpelled(s, i, Lit(m.pre), r2);
    CatSpelled(s, i + |m.pre|, Lit(StringText(m.key)), r3);
    AtIndex(s, i + |m.pre|, StringText(m.key), 0);
    CatSpelled(s, i + |m.pre| + |StringText(m.key)|, Lit(m.mid), r4);
    var c := i + |m.pre| + |StringText(m.key)| + |m.mid|;
    CatSpelled(s, c, Byte(COLON), MemberTail(m, tail));
    ByteSpelled(s, c, COLON);
  }

  lemma MemberTailSpelled(s: bytes, i: nat, m: Entry, tail: Rope)
    requires Spells(s, i, MemberTail(m, tail))
    ensures var k := i + |m.colon|; var p := k + Size(Text(m.v)); var q := p + |m.post|;
      && Spells(s, i, Lit(m.colon)) && Spells(s, k, Text(m.v)) && Spells(s, p, Lit(m.post)) && Spells(s, q, tail)
      && i + Size(MemberTail(m, tail)) == q + Size(tail)
  {
    hide At, Text;
    var r3 := Cat(Lit(m.post), tail);
    CatSpelled(s, i, Lit(m.colon), Cat(Text(m.v), r3));
    CatSpelled(s, i + |m.colon|, Text(m.v), r3);
    CatSpelled(s, i + |m.colon| + Size(Text(m.v)), Lit(m.post), tail);
  }

  lemma {:induction false} EntryParsed(s: bytes, i: nat, depth: int, m: Entry, tail: Rope) returns (q: nat)
    requires ValidEntry(m) && Spells(s, i, EntryText(m, tail)) && depth + Depth(m.v) <= NESTING_LIMIT
    requires var e := i + Size(EntryText(m, tail)) - Size(tail); 0 <= e < |s| && Ends(s[e])
    ensures i <= |s| && MemberAt(s, i, depth).Done? && MemberAt(s, i, depth).value == EntryDenotes(m)
    ensures SkipBlanks(s, MemberAt(s, i, depth).next) == q == i + Size(EntryText(m, tail)) - Size(tail)
    ensures SkipBlanks(s, i) < |s| && s[SkipBlanks(s, i)] == QUOTE
    decreases m, 2
  {
    hide At, Spells, Text, LiteralAt, MemberAt, ValueAt, StringText, EntryText, MemberTail;
    KeySpelled(s, i, m, tail);
    var k := i + |m.pre|;
    var a := k + |StringText(m.key)|;
    var c := a + |m.mid|;
    MemberTailSpelled(s, c + 1, m, tail);
    WsSkipped(s, i, m.pre);
    StringParsed(s, k, m.key);
    WsSkipped(s, a, m.mid);
    var k', p';
    k', p', q := SpacedValueParsed(s, c + 1, depth, m.colon, m.v, m.post);
    MemberStep(s, i, depth, (PiecesValue(m.key), a), c, Done(Denotes(m.v), p'));
  }

  lemma MembersStep(s: bytes, i: nat, depth: int, m: Parsed<Member>, q: nat)
    requires i <= |s| && m.Done? && MemberAt(s, i, depth) == m && SkipBlanks(s, m.next) == q < |s|
    ensures s[q] == RBRACE ==> MembersAt(s, i, depth) == Done([m.value], q + 1)
    ensures s[q] == COMMA && MembersAt(s, q + 1, depth).Done? ==>
      MembersAt(s, i, depth) == Done([m.value] + MembersAt(s, q + 1, depth).value, MembersAt(s, q + 1, depth).next)
  {
    hide MemberAt, ValueAt;
  }

  /** The end of the first member of a list, and the rest of the list. */
  lemma MemsSpelled(s: bytes, i: nat, ms: Mems)
    requires Spells(s, i, MemsText(ms))
    ensures var tail := MemsTail(ms); var q := i + Size(MemsText(ms)) - Size(tail);
      && MemsText(ms) == EntryText(ms.m, tail)
      && i <= q < |s| && s[q] == (if ms.MoreMems? then COMMA else RBRACE)
      && i + Size(MemsText(ms)) == q + 1 + (if ms.MoreMems? then Size(MemsText(ms.rest)) else 0)
      && (ms.MoreMems? ==> Spells(s, q + 1, MemsText(ms.rest)))
  {
    hide At, Text, StringText;
    var tail := MemsTail(ms);
    KeySpelled(s, i, ms.m, tail);
    var c := i + |ms.m.pre| + |StringText(ms.m.key)| + |ms.m.mid|;
    MemberTailSpelled(s, c + 1, ms.m, tail);
    var q := i + Size(MemsText(ms)) - Size(tail);
    if ms.MoreMems? {
      CatSpelled(s, q, Byte(COMMA), MemsText(ms.rest));
    }
    ByteSpelled(s, q, if ms.MoreMems? then COMMA else RBRACE);
  }

  lemma {:induction false} FirstMemberParsed(s: bytes, i: nat, depth: int, ms: Mems) returns (q: nat)
    requires ValidMems(ms) && Spells(s, i, MemsText(ms)) && depth + Depth(ms.m.v) <= NESTING_LIMIT
    ensures i <= |s| && MemberAt(s, i, depth).Done? && MemberAt(s, i, depth).value == EntryDenotes(ms.m)
    ensures SkipBlanks(s, MemberAt(s, i, depth).next) == q
    ensures SkipBlanks(s, i) < |s| && s[SkipBlanks(s, i)] == QUOTE
    ensures q < |s| && s[q] == (if ms.MoreMems? then COMMA else RBRACE)
    ensures i + Size(MemsText(ms)) == q + 1 + (if ms.MoreMems? then Size(MemsText(ms.rest)) else 0)
    ensures ms.MoreMems? ==> Spells(s, q + 1, MemsText(ms.rest))
    decreases ms, 0
  {
    hide At, Spells, Text, LiteralAt, MemberAt, ValueAt, StringText, EntryText, MemberTail;
    MemsSpelled(s, i, ms);
    q := EntryParsed(s, i, depth, ms.m, MemsTail(ms));
  }

  lemma {:induction false} MemsParsed(s: bytes, i: nat, depth: int, ms: Mems)
    requires ValidMems(ms) && Spells(s, i, MemsText(ms)) && depth + MemsDepth(ms) <= NESTING_LIMIT
    ensures i <= |s| && MembersAt(s, i, depth) == Done(MemsDenote(ms), i + Size(MemsText(ms)))
    ensures SkipBlanks(s, i) < |s| && s[SkipBlanks(s, i)] != RBRACE
    decreases ms, 1
  {
    hide At, LiteralAt, MemberAt, StringText, EntryText, MemberTail;
    var q := FirstMemberParsed(s, i, depth, ms);
    MembersStep(s, i, depth, MemberAt(s, i, depth), q);
    if ms.MoreMems? {
      MemsParsed(s, q + 1, depth, ms.rest);
    }
  }

  // --- Documents ---------------------------------------------------------------------

  /** The whole buffer, by positions. */
  lemma BufferStep(s: bytes, i: nat, v: Parsed<Value>, requireNul: bool)
    requires |s| > 0 && s[0] != 0xEF && SkipBlanks(s, 0) == i && v.Done? && ValueAt(s, i, 0) == v
    requires v.next < |s| && SkipBlanks(s, v.next) == |s| && s[|s| - 1] == 0
    ensures ParseBuffer(s, requireNul) == Some(v.value)
  {
    assert AfterBom(s) == 0 by { assert 4 < |s| ==> s[..3][0] == s[0]; }
  }

  /** Where the value of a document stands. */
  lemma DocumentSpelled(d: Document)
    requires ValidDocument(d)
    ensures var s, i := Flatten(DocumentText(d)) + [0], |d.before|; var k := i + Size(Text(d.c));
      && i <= k < |s| && s[0] != 0xEF && SkipBlanks(s, 0) == i && Spells(s, i, Text(d.c))
      && SkipBlanks(s, k) == |s| && IsBlank(s[k]) && s[|s| - 1] == 0
  {
    hide At, Text;
    var t := Flatten(DocumentText(d));
    var s := t + [0];
    AtWhole(s);
    AtSplit(s, 0, t, [0]);
    SpellsText(s, 0, DocumentText(d));
    var i := |d.before|;
    CatSpelled(s, 0, Lit(d.before), Cat(Text(d.c), Lit(d.after)));
    CatSpelled(s, i, Text(d.c), Lit(d.after));
    FirstByte(s, i, d.c);
    WsSkipped(s, 0, d.before);
    BlankTail(s, i + Size(Text(d.c)), d.after);
  }

  /**
    * RFC 8259, sections 2 to 7: cJSON_Parse succeeds on every document nested at most 1000 deep and
    * builds the value it denotes, whether or not the terminating NUL is required to follow.
    */
  lemma DocumentParsed(d: Document, requireNul: bool)
    requires ValidDocument(d) && Depth(d.c) <= NESTING_LIMIT
    ensures ParseBuffer(Flatten(DocumentText(d)) + [0], requireNul) == Some(Denotes(d.c))
  {
    hide At, Text, ValueAt, ParseBuffer, Spells, DocumentText;
    var s, i := Flatten(DocumentText(d)) + [0], |d.before|;
    DocumentSpelled(d);
    ValueParsed(s, i, 0, d.c);
    BufferStep(s, i, Done(Denotes(d.c), i + Size(Text(d.c))), requireNul);
  }

  lemma {:induction false} BlankTail(s: bytes, i: nat, ws: bytes)
    requires ValidWs(ws) && Spells(s, i, Lit(ws)) && i + |ws| + 1 == |s| && s[|s| - 1] == 0
    ensures SkipBlanks(s, i) == |s| && IsBlank(s[i])
    decreases |ws|
  {
    if ws != [] {
      AtHead(s, i, ws[0], ws[1..]) by { assert [ws[0]] + ws[1..] == ws; }
      BlankTail(s, i + 1, ws[1..]);
    }
  }

  // --- Escapes of section 7 ----------------------------------------------------------

  /**
    * A \u escape or a surrogate pair of the grammar: the bytes written are those of section 3 of
    * RFC 3629 for its code point, and a reference decoder recovers the code point from them.
    */
  lemma EscapeRecovered(s: bytes, p: nat, end: nat, piece: Piece)
    requires ValidPiece(piece) && (piece.Hex? || piece.Pair?)
    requires At(s, p, PieceText(piece)) && p + |PieceText(piece)| <= end < |s|
    ensures EscapeAt(s, p, end).Some?
    ensures EscapeAt(s, p, end).value.1 == |PieceText(piece)|
    ensures DecodeUtf8(Utf8Bytes(EscapeAt(s, p, end).value.0)) == Some(PieceCodepoint(piece))
  {
    EscapeIs(s, p, end, piece);
    DecodeInvertsEncode(PieceCodepoint(piece));
  }

  /** The escape at `p` is followed by the second half of a surrogate pair. */
  predicate PairFollows(s: bytes, p: nat, end: nat) {
    p + 12 <= end <= |s| && s[p + 6] == BACKSLASH && s[p + 7] == 117 && IsLowSurrogate(Hex4(s[p + 8..p + 12]))
  }

  /** Four valid hex digits are refused exactly when they are a surrogate without its other half. */
  lemma LoneSurrogateRefused(s: bytes, p: nat, end: nat, h: bytes)
    requires IsHex4(h) && At(s, p, [BACKSLASH, 117] + h) && p + 6 <= end < |s|
    ensures EscapeAt(s, p, end).None? <==>
      IsLowSurrogate(Hex4(h)) || (IsHighSurrogate(Hex4(h)) && !PairFollows(s, p, end))
  {
    hide At, PairCodepoint;
    HexEscape(s, p, h);
  }
}
