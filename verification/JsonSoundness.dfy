/**
  * Whatever the parser accepts is a text of the loose grammar, and the result is what that text denotes.
  * So everything else is refused.
  */
module JsonSoundness {
  import opened Bytes
  import opened JsonValue
  import opened Utf8Encoding
  import opened JsonStringSpec
  import opened JsonParseSpec
  import opened JsonGrammar
  import opened JsonCompleteness
  import opened JsonLoose

  /** Two adjacent occurrences are one. */
  lemma AtJoin(s: bytes, i: nat, a: bytes, b: bytes)
    requires At(s, i, a) && At(s, i + |a|, b)
    ensures At(s, i, a + b)
  {
    assert s[i..i + |a| + |b|] == s[i..i + |a|] + s[i + |a|..i + |a| + |b|];
  }

  lemma AtOne(s: bytes, i: nat, b: byte)
    requires i < |s| && s[i] == b
    ensures At(s, i, [b])
  {
    assert s[i..i + 1] == [s[i]];
  }

  lemma AtPart(s: bytes, i: nat, j: nat)
    requires i <= j <= |s|
    ensures At(s, i, s[i..j])
  {
  }

  // --- Strings ---------------------------------------------------------------------------------

  /** One piece in front of the others. */
  lemma PieceFront(s: bytes, p: nat, piece: Piece, ps: seq<Piece>, after: bool)
    requires LoosePiece(piece) && (piece == Plain(QUOTE) ==> after) && piece != Plain(BACKSLASH)
    requires LoosePieces(ps, after || Malformed(piece))
    requires At(s, p, PieceText(piece)) && At(s, p + |PieceText(piece)|, PiecesText(ps))
    ensures LoosePieces([piece] + ps, after) && At(s, p, PiecesText([piece] + ps))
    ensures |PiecesText([piece] + ps)| == |PieceText(piece)| + |PiecesText(ps)|
    ensures LooseValue([piece] + ps, after) == LoosePieceValue(piece) + LooseValue(ps, after || Malformed(piece))
  {
    hide At, PieceText, LoosePiece, LoosePieceValue;
    assert ([piece] + ps)[1..] == ps;
    AtJoin(s, p, PieceText(piece), PiecesText(ps));
  }

  /** The piece a \u escape is. */
  lemma EscapePiece(s: bytes, p: nat, end: nat) returns (piece: Piece)
    requires p + 1 < end < |s| && s[p] == BACKSLASH && s[p + 1] == 117 && EscapeAt(s, p, end).Some?
    ensures LoosePiece(piece) && (piece.Hex? || piece.Pair?)
    ensures At(s, p, PieceText(piece)) && |PieceText(piece)| == EscapeAt(s, p, end).value.1
    ensures LoosePieceValue(piece) == Utf8Bytes(EscapeAt(s, p, end).value.0)
  {
    var h := s[p + 2..p + 6];
    assert s[p..p + 6] == [BACKSLASH, 117] + h;
    if IsHighSurrogate(Hex4(h)) {
      var lo := s[p + 8..p + 12];
      assert s[p + 6..p + 12] == [BACKSLASH, 117] + lo;
      AtJoin(s, p, [BACKSLASH, 117] + h, [BACKSLASH, 117] + lo);
      PairCodepointIs(Hex4(h), Hex4(lo));
      piece := Pair(h, lo);
    } else {
      piece := Hex(h);
      assert Malformed(piece) ==> Hex4(h) == 0;
    }
  }

  lemma UnicodeInside(s: bytes, p: nat, end: nat)
    requires p < end < |s| && s[p] == BACKSLASH && s[p + 1] == 117 && DecodeBody(s, p, end).ok
    ensures EscapeAt(s, p, end).Some? && p + 6 <= end
  {
  }

  /** The next boundary of the first scan: out of step only behind a malformed escape. */
  lemma EscapeStep(s: bytes, p: nat, b: nat, end: nat, piece: Piece, after: bool) returns (b': nat)
    requires end < |s| && ScanEnd(s, b) == Some(end) && p <= b <= p + 1 && (b > p ==> after)
    requires LoosePiece(piece) && (piece.Hex? || piece.Pair?) && At(s, p, PieceText(piece))
    requires p + |PieceText(piece)| <= end
    ensures var q := p + |PieceText(piece)|;
      q <= b' <= q + 1 && ScanEnd(s, b') == Some(end) && (b' > q ==> after || Malformed(piece))
  {
    hide At, ScanEnd;
    var q := p + |PieceText(piece)|;
    if b == p && !Malformed(piece) {
      b' := q;
      match piece
      case Hex(h) => HexScanned(s, p, h);
      case Pair(hi, lo) =>
        AtSplit(s, p, [BACKSLASH, 117] + hi, [BACKSLASH, 117] + lo);
        HexScanned(s, p + 6, lo);
        HexScanned(s, p, hi);
    } else {
      b' := SkipUnits(s, b, q, end);
    }
  }

  lemma NothingDecoded(s: bytes, p: nat, after: bool)
    requires p < |s|
    ensures LoosePieces([], after) && PiecesText([]) == [] && At(s, p, []) && LooseValue([], after) == []
    ensures DecodeBody(s, p, p).out == []
  {
  }

  /** A byte that is no backslash stands for itself. */
  lemma PlainFacts(s: bytes, p: nat)
    requires p < |s| && s[p] != BACKSLASH
    ensures LoosePiece(Plain(s[p])) && At(s, p, PieceText(Plain(s[p]))) && |PieceText(Plain(s[p]))| == 1
    ensures LoosePieceValue(Plain(s[p])) == [s[p]] && !Malformed(Plain(s[p]))
  {
    AtOne(s, p, s[p]);
  }

  lemma ShortFacts(s: bytes, p: nat)
    requires p + 1 < |s| && s[p] == BACKSLASH && SimpleEscape(s[p + 1]).Some?
    ensures var piece := Short(s[p + 1]);
      && LoosePiece(piece) && At(s, p, PieceText(piece)) && |PieceText(piece)| == 2
      && LoosePieceValue(piece) == [SimpleEscape(s[p + 1]).value] && !Malformed(piece)
  {
    assert s[p..p + 2] == [s[p], s[p + 1]];
  }

  /** A last backslash takes the closing quote with it. */
  lemma LastBackslash(s: bytes, p: nat, end: nat)
    requires p + 1 == end < |s| && s[p] == BACKSLASH && s[end] == QUOTE
    ensures LoosePieces([Plain(BACKSLASH)], true) && At(s, p, PiecesText([Plain(BACKSLASH)]))
    ensures |PiecesText([Plain(BACKSLASH)])| == 1 && LooseValue([Plain(BACKSLASH)], true) == [QUOTE]
    ensures DecodeBody(s, p, end).out == [QUOTE]
  {
    AtOne(s, p, BACKSLASH);
    assert [Plain(BACKSLASH)][1..] == [];
    assert [BACKSLASH] + [] == [BACKSLASH];
    assert LooseValue([], true) == [];
  }

  /**
    * What the second pass decodes from `p` is spelled by loose pieces up to the closing quote. `b` is the
    * next boundary of the first scan, and out of step only `after` a malformed escape.
    */
  lemma {:induction false} BodySound(s: bytes, p: nat, b: nat, end: nat, after: bool) returns (ps: seq<Piece>)
    requires end < |s| && ScanEnd(s, b) == Some(end) && p <= b <= p + 1 && p <= end && (b > p ==> after)
    requires DecodeBody(s, p, end).ok
    ensures LoosePieces(ps, after) && At(s, p, PiecesText(ps)) && p + |PiecesText(ps)| == end
    ensures LooseValue(ps, after) == DecodeBody(s, p, end).out
    decreases end - p
  {
    hide At, EscapeAt, SimpleEscape, LoosePiece, LoosePieceValue, PieceText, LoosePieces, LooseValue, PiecesText;
    if p == end {
      ps := [];
      NothingDecoded(s, p, after);
    } else if s[p] != BACKSLASH {
      var rest := BodySound(s, p + 1, p + 1, end, after);
      PlainFacts(s, p);
      PieceFront(s, p, Plain(s[p]), rest, after);
      ps := [Plain(s[p])] + rest;
    } else if s[p + 1] == 117 {
      assert EscapeAt(s, p, end).Some? && p + 6 <= end by { UnicodeInside(s, p, end); }
      var piece := EscapePiece(s, p, end);
      var b' := EscapeStep(s, p, b, end, piece, after);
      var rest := BodySound(s, p + |PieceText(piece)|, b', end, after || Malformed(piece));
      PieceFront(s, p, piece, rest, after);
      ps := [piece] + rest;
    } else if p + 1 == end {
      ps := [Plain(BACKSLASH)];
      LastBackslash(s, p, end);
    } else {
      var b' := p + 2;
      if b > p {
        b' := SkipUnits(s, b, p + 2, end);
      }
      var rest := BodySound(s, p + 2, b', end, after);
      ShortFacts(s, p);
      PieceFront(s, p, Short(s[p + 1]), rest, after);
      ps := [Short(s[p + 1])] + rest;
    }
  }

  /** A literal the parser accepts is spelled by loose pieces, and they stand for its bytes. */
  lemma LiteralSound(s: bytes, p: nat) returns (ps: seq<Piece>)
    requires LiteralAt(s, p).Some?
    ensures LoosePieces(ps, false) && At(s, p, StringText(ps))
    ensures LiteralAt(s, p) == Some((LooseValue(ps, false), p + |StringText(ps)|))
  {
    hide At, DecodeBody, LoosePieces, LooseValue, PiecesText;
    var end := ScanEnd(s, p + 1).value;
    ps := BodySound(s, p + 1, p + 1, end, false);
    AtOne(s, end, QUOTE);
    AtOne(s, p, QUOTE);
    AtJoin(s, p + 1, PiecesText(ps), [QUOTE]);
    AtJoin(s, p, [QUOTE], PiecesText(ps) + [QUOTE]);
  }

  // --- Numbers ---------------------------------------------------------------------------------

  lemma ExponentOf(t: bytes, i: nat) returns (x: Option<Exponent>)
    requires i <= |t|
    ensures x.Some? ==> ValidExponent(x.value)
    ensures ExpText(x) == t[i..ExponentAt(t, i).0] && ExpValue(x) == ExponentAt(t, i).1
  {
    hide DigitsValue, DigitsEnd;
    var (end, e) := ExponentAt(t, i);
    if end == i {
      x := None;
    } else {
      var j := if IsSign(t, i + 1) then i + 2 else i + 1;
      x := Some(Exponent(t[i], t[i + 1..j], t[j..end]));
      assert t[i..end] == [t[i]] + (t[i + 1..j] + t[j..end]);
      assert IsSign(t, i + 1) ==> t[i + 1..j] == [t[i + 1]];
    }
  }

  /** strtod by positions: the digits end at `i1`, the fraction at `i2`, the exponent at `end`. */
  lemma StrToDParts(t: bytes) returns (i0: nat, i1: nat, dot: bool, i2: nat, end: nat, e: int)
    requires StrToD(t).Some?
    ensures i0 == (if IsSign(t, 0) then 1 else 0) && i1 == DigitsEnd(t, i0) && dot == (i1 < |t| && t[i1] == DOT)
    ensures i2 == (if dot then DigitsEnd(t, i1 + 1) else i1) && (end, e) == ExponentAt(t, i2)
    ensures var f0 := if dot then i1 + 1 else i1;
      && i0 <= i1 <= f0 <= i2 <= end <= |t| && (i0 < i1 || f0 < i2)
      && AllDigits(t[i0..i1]) && AllDigits(t[f0..i2])
      && StrToD(t) == Some((end, Scaled(i0 == 1 && t[0] == MINUS,
                                        DigitsValue(Glue(t[i0..i1], t[f0..i2])), e - (i2 - f0))))
  {
    hide DigitsValue, DigitsEnd, Scaled, ExponentAt;
    i0 := if IsSign(t, 0) then 1 else 0;
    i1 := DigitsEnd(t, i0);
    dot := i1 < |t| && t[i1] == DOT;
    i2 := if dot then DigitsEnd(t, i1 + 1) else i1;
    var x := ExponentAt(t, i2);
    end, e := x.0, x.1;
  }

  /** What strtod reads is a loose numeral, and its value. */
  lemma NumeralOf(t: bytes) returns (n: Numeral)
    requires StrToD(t).Some? && (t[0] == MINUS || IsDigit(t[0]))
    ensures LooseNumeral(n) && NumeralText(n) == t[..StrToD(t).value.0] && LooseNumber(n) == StrToD(t).value.1
  {
    hide DigitsValue, DigitsEnd, Scaled, ExponentAt, ExpText, ExpValue, StrToD, NumeralText, AllDigits;
    var i0, i1, dot, i2, end, e := StrToDParts(t);
    var f0 := if dot then i1 + 1 else i1;
    var x := ExponentOf(t, i2);
    n := Numeral(t[0] == MINUS, t[i0..i1], if dot then Some(t[f0..i2]) else None, x);
    if IsDigit(t[0]) {
      FirstDigit(t);
    }
    assert t[f0..i2] == FracDigits(n.frac);
    Layout(t, i0, i1, i2, end, dot, n);
  }

  lemma FirstDigit(t: bytes)
    requires t != [] && IsDigit(t[0])
    ensures DigitsEnd(t, 0) > 0
  {
  }

  lemma Layout(t: bytes, i0: nat, i1: nat, i2: nat, end: nat, dot: bool, n: Numeral)
    requires t != [] && i0 <= i1 <= i2 <= end <= |t| && i0 == (if n.neg then 1 else 0) && (n.neg ==> t[0] == MINUS)
    requires n.whole == t[i0..i1] && dot == n.frac.Some? && ExpText(n.exp) == t[i2..end]
    requires if dot then i1 < i2 && t[i1] == DOT && n.frac.value == t[i1 + 1..i2] else i1 == i2
    ensures NumeralText(n) == t[..end]
  {
    hide ExpText;
    assert SignText(n.neg) == t[..i0];
    assert FracText(n.frac) == t[i1..i2];
    assert t[..end] == t[..i0] + (t[i0..i1] + (t[i1..i2] + t[i2..end]));
  }

  lemma NumberSound(s: bytes, i: nat) returns (n: Numeral)
    requires i < |s| && (s[i] == MINUS || IsDigit(s[i])) && StrToD(s[i..RunEnd(s, i)]).Some?
    ensures LooseNumeral(n) && At(s, i, NumeralText(n))
    ensures StrToD(s[i..RunEnd(s, i)]) == Some((|NumeralText(n)|, LooseNumber(n)))
  {
    hide StrToD, RunEnd, LooseNumeral, LooseNumber, NumeralText;
    var t := s[i..RunEnd(s, i)];
    n := NumeralOf(t);
    assert t[..|NumeralText(n)|] == s[i..i + |NumeralText(n)|];
  }

  // --- Values ----------------------------------------------------------------------------------

  lemma BlanksAreWs(s: bytes, i: nat) returns (ws: bytes)
    requires i <= |s|
    ensures LooseWs(ws) && At(s, i, ws) && SkipBlanks(s, i) == i + |ws|
  {
    ws := s[i..SkipBlanks(s, i)];
  }

  lemma JoinSpelled(s: bytes, i: nat, a: Rope, b: Rope)
    requires Spells(s, i, a) && Spells(s, i + Size(a), b)
    ensures Spells(s, i, Cat(a, b)) && Size(Cat(a, b)) == Size(a) + Size(b)
  {
  }

  lemma ByteHere(s: bytes, i: nat, b: byte)
    requires i < |s| && s[i] == b
    ensures Spells(s, i, Byte(b)) && Size(Byte(b)) == 1
  {
    AtOne(s, i, b);
  }

  /** A tree at `i` that denotes what was parsed there. */
  predicate Reads(s: bytes, i: nat, depth: int, c: Cst, r: Parsed<Value>) {
    && r.Done? && Loose(c) && Spells(s, i, Text(c)) && r == Done(LooseDenotes(c), i + Size(Text(c)))
    && depth + Depth(c) <= NESTING_LIMIT
  }

  lemma ScalarSound(s: bytes, i: nat, depth: int) returns (c: Cst)
    requires i <= |s| && depth <= NESTING_LIMIT && ValueAt(s, i, depth).Done?
    requires !ValueAt(s, i, depth).value.Array? && !ValueAt(s, i, depth).value.Object?
    ensures Reads(s, i, depth, c, ValueAt(s, i, depth))
  {
    hide At, LiteralAt, StrToD, RunEnd, LoosePieces, LooseValue, LooseNumeral, LooseNumber, StringText, NumeralText;
    hide ElementsAt, MembersAt;
    if At(s, i, NULL_TEXT) {
      c := CNull;
    } else if At(s, i, FALSE_TEXT) {
      c := CFalse;
    } else if At(s, i, TRUE_TEXT) {
      c := CTrue;
    } else if s[i] == QUOTE {
      var ps := LiteralSound(s, i);
      c := CString(ps);
    } else {
      var n := NumberSound(s, i);
      c := CNumber(n);
    }
  }

  /** An empty container: its brackets and the white space in it. */
  lemma EmptySound(s: bytes, i: nat, depth: int, open: byte, close: byte) returns (c: Cst)
    requires i < |s| && s[i] == open && depth < NESTING_LIMIT
    requires (open == LBRACKET && close == RBRACKET) || (open == LBRACE && close == RBRACE)
    requires SkipBlanks(s, i + 1) < |s| && s[SkipBlanks(s, i + 1)] == close
    ensures Reads(s, i, depth, c,
                  Done(if open == LBRACKET then Array([]) else Object([]), SkipBlanks(s, i + 1) + 1))
  {
    hide At, SkipBlanks;
    var ws := BlanksAreWs(s, i + 1);
    ByteHere(s, i, open);
    ByteHere(s, i + 1 + |ws|, close);
    JoinSpelled(s, i + 1, Lit(ws), Byte(close));
    JoinSpelled(s, i, Byte(open), Cat(Lit(ws), Byte(close)));
    c := if open == LBRACKET then CEmptyArray(ws) else CEmptyObject(ws);
  }

  lemma {:induction false} ValueSound(s: bytes, i: nat, depth: int) returns (c: Cst)
    requires i <= |s| && depth <= NESTING_LIMIT && ValueAt(s, i, depth).Done?
    ensures Reads(s, i, depth, c, ValueAt(s, i, depth))
    decreases |s| - i, 0
  {
    hide At, LiteralAt, StrToD, RunEnd, ElementsAt, MembersAt, SkipBlanks;
    var v := ValueAt(s, i, depth).value;
    if v == Array([]) {
      ArrayStart(s, i, depth);
      c := EmptySound(s, i, depth, LBRACKET, RBRACKET);
    } else if v == Object([]) {
      ObjectStart(s, i, depth);
      c := EmptySound(s, i, depth, LBRACE, RBRACE);
    } else if v.Array? {
      ArrayStart(s, i, depth);
      var e := ElementsSound(s, i + 1, depth + 1);
      ByteHere(s, i, LBRACKET);
      JoinSpelled(s, i, Byte(LBRACKET), ElemsText(e));
      c := CArray(e);
    } else if v.Object? {
      ObjectStart(s, i, depth);
      var ms := MembersSound(s, i + 1, depth + 1);
      ByteHere(s, i, LBRACE);
      JoinSpelled(s, i, Byte(LBRACE), MemsText(ms));
      c := CObject(ms);
    } else {
      c := ScalarSound(s, i, depth);
    }
  }

  lemma ArrayStart(s: bytes, i: nat, depth: int)
    requires i <= |s| && ValueAt(s, i, depth).Done? && ValueAt(s, i, depth).value.Array?
    ensures i < |s| && s[i] == LBRACKET && depth < NESTING_LIMIT
    ensures var v, k := ValueAt(s, i, depth), SkipBlanks(s, i + 1);
      if v.value.items == [] then k < |s| && s[k] == RBRACKET && v.next == k + 1
      else ElementsAt(s, i + 1, depth + 1) == Done(v.value.items, v.next)
  {
    hide At, LiteralAt, StrToD, RunEnd, SkipBlanks, ElementsAt, MembersAt;
  }

  lemma ObjectStart(s: bytes, i: nat, depth: int)
    requires i <= |s| && ValueAt(s, i, depth).Done? && ValueAt(s, i, depth).value.Object?
    ensures i < |s| && s[i] == LBRACE && depth < NESTING_LIMIT
    ensures var v, k := ValueAt(s, i, depth), SkipBlanks(s, i + 1);
      if v.value.members == [] then k < |s| && s[k] == RBRACE && v.next == k + 1
      else MembersAt(s, i + 1, depth + 1) == Done(v.value.members, v.next)
  {
    hide At, LiteralAt, StrToD, RunEnd, SkipBlanks, ElementsAt, MembersAt;
  }

  /** The text of one element and what follows it. */
  lemma ElemSpelled(s: bytes, i: nat, e: Elems)
    requires Spells(s, i, Lit(e.pre)) && Spells(s, i + |e.pre|, Text(e.v))
    requires Spells(s, i + |e.pre| + Size(Text(e.v)), Lit(e.post))
    requires var q := i + |e.pre| + Size(Text(e.v)) + |e.post|;
      && q < |s| && s[q] == (if e.MoreElems? then COMMA else RBRACKET)
      && (e.MoreElems? ==> Spells(s, q + 1, ElemsText(e.rest)))
    ensures Spells(s, i, ElemsText(e))
    ensures Size(ElemsText(e)) == |e.pre| + Size(Text(e.v)) + |e.post| + 1
                                  + (if e.MoreElems? then Size(ElemsText(e.rest)) else 0)
  {
    hide At, Text;
    var q := i + |e.pre| + Size(Text(e.v)) + |e.post|;
    ByteHere(s, q, s[q]);
    var r4 := if e.MoreElems? then Cat(Byte(COMMA), ElemsText(e.rest)) else Byte(RBRACKET);
    if e.MoreElems? {
      JoinSpelled(s, q, Byte(COMMA), ElemsText(e.rest));
    }
    JoinSpelled(s, q - |e.post|, Lit(e.post), r4);
    JoinSpelled(s, i + |e.pre|, Text(e.v), Cat(Lit(e.post), r4));
    JoinSpelled(s, i, Lit(e.pre), Cat(Text(e.v), Cat(Lit(e.post), r4)));
  }

  lemma {:induction false} ElementsSound(s: bytes, i: nat, depth: int) returns (e: Elems)
    requires i <= |s| && depth <= NESTING_LIMIT && ElementsAt(s, i, depth).Done?
    ensures LooseElems(e) && Spells(s, i, ElemsText(e)) && depth + ElemsDepth(e) <= NESTING_LIMIT
    ensures ElementsAt(s, i, depth) == Done(LooseElemsDenote(e), i + Size(ElemsText(e)))
    decreases |s| - i, 1
  {
    hide At, ValueAt, SkipBlanks, Text, Flatten, Loose, LooseDenotes;
    var pre := BlanksAreWs(s, i);
    var v := ValueAt(s, SkipBlanks(s, i), depth);
    var c := ValueSound(s, SkipBlanks(s, i), depth);
    var post := BlanksAreWs(s, v.next);
    var q := SkipBlanks(s, v.next);
    if s[q] == COMMA {
      var rest := ElementsSound(s, q + 1, depth);
      e := MoreElems(pre, c, post, rest);
    } else {
      e := LastElem(pre, c, post);
    }
    ElemSpelled(s, i, e);
  }

  /** Where a member that begins at `i` ends. */
  function EntryEnd(i: nat, m: Entry): nat {
    i + |m.pre| + |StringText(m.key)| + |m.mid| + 1 + |m.colon| + Size(Text(m.v)) + |m.post|
  }

  /** The parts of a member, one behind the other. */
  predicate EntryAt(s: bytes, i: nat, m: Entry) {
    var a := i + |m.pre| + |StringText(m.key)|;
    var c := a + |m.mid|;
    var k := c + 1 + |m.colon|;
    && Spells(s, i, Lit(m.pre)) && At(s, i + |m.pre|, StringText(m.key)) && Spells(s, a, Lit(m.mid))
    && c < |s| && s[c] == COLON && Spells(s, c + 1, Lit(m.colon))
    && Spells(s, k, Text(m.v)) && Spells(s, k + Size(Text(m.v)), Lit(m.post))
  }

  lemma EntrySpelled(s: bytes, i: nat, m: Entry, tail: Rope)
    requires EntryAt(s, i, m) && Spells(s, EntryEnd(i, m), tail)
    ensures Spells(s, i, EntryText(m, tail))
    ensures i + Size(EntryText(m, tail)) == EntryEnd(i, m) + Size(tail)
  {
    hide At, Text, StringText;
    var a := i + |m.pre| + |StringText(m.key)|;
    var c := a + |m.mid|;
    var k := c + 1 + |m.colon|;
    JoinSpelled(s, k + Size(Text(m.v)), Lit(m.post), tail);
    JoinSpelled(s, k, Text(m.v), Cat(Lit(m.post), tail));
    JoinSpelled(s, c + 1, Lit(m.colon), Cat(Text(m.v), Cat(Lit(m.post), tail)));
    ByteHere(s, c, COLON);
    JoinSpelled(s, c, Byte(COLON), MemberTail(m, tail));
    JoinSpelled(s, a, Lit(m.mid), Cat(Byte(COLON), MemberTail(m, tail)));
    JoinSpelled(s, i + |m.pre|, Lit(StringText(m.key)), Cat(Lit(m.mid), Cat(Byte(COLON), MemberTail(m, tail))));
    JoinSpelled(s, i, Lit(m.pre),
                Cat(Lit(StringText(m.key)), Cat(Lit(m.mid), Cat(Byte(COLON), MemberTail(m, tail)))));
  }

  /** A member up to the end of its value, by positions. */
  lemma MemberParts(s: bytes, i: nat, depth: int) returns (key: (bytes, nat), c: nat, v: Parsed<Value>)
    requires i <= |s| && MemberAt(s, i, depth).Done?
    ensures LiteralAt(s, SkipBlanks(s, i)) == Some(key) && key.1 <= |s|
    ensures SkipBlanks(s, key.1) == c < |s| && s[c] == COLON
    ensures v.Done? && v == ValueAt(s, SkipBlanks(s, c + 1), depth)
    ensures MemberAt(s, i, depth) == Done(Member(key.0, v.value), v.next)
  {
    hide At, LiteralAt, ValueAt, SkipBlanks;
    key := LiteralAt(s, SkipBlanks(s, i)).value;
    c := SkipBlanks(s, key.1);
    v := ValueAt(s, SkipBlanks(s, c + 1), depth);
  }

  lemma {:induction false} MemberSound(s: bytes, i: nat, depth: int) returns (m: Entry)
    requires i <= |s| && depth <= NESTING_LIMIT && MemberAt(s, i, depth).Done?
    ensures LooseEntry(m) && EntryAt(s, i, m) && depth + Depth(m.v) <= NESTING_LIMIT
    ensures MemberAt(s, i, depth).value == LooseEntryDenotes(m)
    ensures SkipBlanks(s, MemberAt(s, i, depth).next) == EntryEnd(i, m)
    decreases |s| - i, 0
  {
    hide At, ValueAt, LiteralAt, MemberAt, SkipBlanks, Text, Loose, LooseDenotes, LoosePieces, LooseValue, StringText;
    hide LooseWs, Depth;
    var literal, c, v := MemberParts(s, i, depth);
    var pre := BlanksAreWs(s, i);
    var key := LiteralSound(s, SkipBlanks(s, i));
    var mid := BlanksAreWs(s, literal.1);
    var colon := BlanksAreWs(s, c + 1);
    var tree := ValueSound(s, SkipBlanks(s, c + 1), depth);
    var post := BlanksAreWs(s, v.next);
    m := Entry(pre, key, mid, colon, tree, post);
  }

  lemma {:induction false} MembersSound(s: bytes, i: nat, depth: int) returns (ms: Mems)
    requires i <= |s| && depth <= NESTING_LIMIT && MembersAt(s, i, depth).Done?
    ensures LooseMems(ms) && Spells(s, i, MemsText(ms)) && depth + MemsDepth(ms) <= NESTING_LIMIT
    ensures MembersAt(s, i, depth) == Done(LooseMemsDenote(ms), i + Size(MemsText(ms)))
    decreases |s| - i, 1
  {
    hide At, MemberAt, SkipBlanks, LooseEntry, LooseEntryDenotes, EntryText, EntryAt, EntryEnd;
    var m := MemberSound(s, i, depth);
    var q := SkipBlanks(s, MemberAt(s, i, depth).next);
    ByteHere(s, q, s[q]);
    if s[q] == COMMA {
      var rest := MembersSound(s, q + 1, depth);
      ms := MoreMems(m, rest);
      JoinSpelled(s, q, Byte(COMMA), MemsText(rest));
    } else {
      ms := LastMem(m);
    }
    EntrySpelled(s, i, m, MemsTail(ms));
  }

  // --- Whole texts -----------------------------------------------------------------------------

  lemma {:induction false} SpelledText(s: bytes, i: nat, r: Rope)
    requires Spells(s, i, r)
    ensures At(s, i, Flatten(r))
    decreases r
  {
    if r.Cat? {
      SpelledText(s, i, r.left);
      SpelledText(s, i + Size(r.left), r.right);
      AtJoin(s, i, Flatten(r.left), Flatten(r.right));
    }
  }

  /**
   * `c` is written in `s` from `i` to `j`; in front of it stand a byte order mark and blanks, behind it what is
   * let through.
   */
  predicate TextOf(s: bytes, i: nat, c: Cst, j: nat, requireNul: bool) {
    && i <= j <= |s| && s[i..j] == Flatten(Text(c))
    && (var first := if 4 < |s| && s[..3] == [0xEF, 0xBB, 0xBF] then 3 else 0;
        && first <= i && (forall k | first <= k < i :: s[k] <= 32))
    && (requireNul ==> j < |s| && s[|s| - 1] == 0 && forall k | j <= k < |s| :: s[k] <= 32)
  }

  /**
    * Whatever is accepted, in any buffer, is a text of the loose grammar, nested at most 1000 deep, and the
    * result is what that text denotes. Behind it anything may follow, or only blanks up to the last NUL when
    * the terminator is required.
    */
  lemma AcceptedIsLoose(s: bytes, requireNul: bool) returns (i: nat, c: Cst, j: nat)
    requires ParseBuffer(s, requireNul).Some?
    ensures TextOf(s, i, c, j, requireNul) && Loose(c) && Depth(c) <= NESTING_LIMIT
    ensures ParseBuffer(s, requireNul) == Some(LooseDenotes(c))
  {
    hide At, ValueAt, Text, Loose, LooseDenotes, Flatten, Depth;
    i := SkipBlanks(s, AfterBom(s));
    c := ValueSound(s, i, 0);
    j := i + Size(Text(c));
    SpelledText(s, i, Text(c));
    AtSlice(s, i, Flatten(Text(c)));
  }

  /** A backslash in front of any character but the eight and `u` is refused; so is a document with it. */
  lemma UnknownEscapeRefused(c: byte)
    requires c !in {QUOTE, BACKSLASH, SLASH, 98, 102, 110, 114, 116, 117}
    ensures LiteralAt([QUOTE, BACKSLASH, c, QUOTE], 0) == None
    ensures ParseBuffer([QUOTE, BACKSLASH, c, QUOTE, 0], false) == None
  {
    NoStringText(c, [QUOTE, BACKSLASH, c, QUOTE]);
    NoStringText(c, [QUOTE, BACKSLASH, c, QUOTE, 0]);
    var s := [QUOTE, BACKSLASH, c, QUOTE, 0];
    assert SkipBlanks(s, 0) == 0;
    assert s[..3][0] == QUOTE;
    NoLiteral(s, 0);
  }

  lemma NoStringText(c: byte, s: bytes)
    requires c !in {QUOTE, BACKSLASH, SLASH, 98, 102, 110, 114, 116, 117}
    requires |s| >= 4 && s[..4] == [QUOTE, BACKSLASH, c, QUOTE]
    ensures LiteralAt(s, 0) == None
  {
    hide LoosePieces, LooseValue, PiecesText, LiteralAt;
    assert s[1] == s[..4][1] && s[2] == s[..4][2];
    if LiteralAt(s, 0).Some? {
      var ps := LiteralSound(s, 0);
      AtHead(s, 0, QUOTE, PiecesText(ps) + [QUOTE]);
      FirstPiece(s, 1, ps);
    }
  }

  /** A backslash that no piece begins with. */
  lemma FirstPiece(s: bytes, p: nat, ps: seq<Piece>)
    requires LoosePieces(ps, false) && At(s, p, PiecesText(ps) + [QUOTE])
    ensures p + 1 < |s| && s[p] == BACKSLASH ==> s[p + 1] in {QUOTE, BACKSLASH, SLASH, 98, 102, 110, 114, 116, 117}
  {
    if ps == [] {
      AtHead(s, p, QUOTE, []);
    } else {
      AtSplit(s, p, PiecesText(ps), [QUOTE]);
      AtSplit(s, p, PieceText(ps[0]), PiecesText(ps[1..]));
      AtIndex(s, p, PieceText(ps[0]), 0);
      if |PieceText(ps[0])| > 1 {
        AtIndex(s, p, PieceText(ps[0]), 1);
      }
    }
  }
}
