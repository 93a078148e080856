/**
  * What cJSON takes for JSON beyond RFC 8259, written out as a grammar over the same syntax trees: any byte
  * up to 32 for white space, numbers as strtod reads them, control bytes in strings, and `\u` in front of
  * four bytes that are no hex digits.
  */
module JsonLoose {
  import opened Bytes
  import opened JsonValue
  import opened Utf8Encoding
  import opened JsonStringSpec
  import opened JsonGrammar

  // --- Strings ---------------------------------------------------------------------------------

  /** `\u` and four bytes that are not all hex digits; they count as 0. */
  predicate Malformed(p: Piece) {
    p.Hex? && !IsHex4(p.h)
  }

  predicate LoosePiece(p: Piece) {
    match p
    case Plain(_) => true
    case Short(c) => c in {QUOTE, BACKSLASH, SLASH, 98, 102, 110, 114, 116}
    case Hex(h) => |h| == 4 && (IsHex4(h) ==> !IsSurrogate(Hex4(h)))
    case Pair(hi, lo) => IsHex4(hi) && IsHex4(lo) && IsHighSurrogate(Hex4(hi)) && IsLowSurrogate(Hex4(lo))
  }

  /**
    * The pieces of a string. Somewhere behind a malformed escape, a quote can stand for itself, and a last
    * backslash can take the closing quote for an escaped one: the two passes over the string are then out
    * of step. `after` says that there was such an escape before.
    */
  predicate LoosePieces(ps: seq<Piece>, after: bool) {
    ps == []
    || (&& LoosePiece(ps[0])
        && (ps[0] == Plain(QUOTE) ==> after)
        && (ps[0] == Plain(BACKSLASH) ==> after && |ps| == 1)
        && LoosePieces(ps[1..], after || Malformed(ps[0])))
  }

  function LoosePieceValue(p: Piece): bytes
    requires LoosePiece(p)
  {
    if p == Plain(BACKSLASH) then [QUOTE]
    else if Malformed(p) then [0]
    else if p.Plain? then [p.b]
    else PieceValue(p)
  }

  function LooseValue(ps: seq<Piece>, after: bool): bytes
    requires LoosePieces(ps, after)
  {
    if ps == [] then [] else LoosePieceValue(ps[0]) + LooseValue(ps[1..], after || Malformed(ps[0]))
  }

  // --- Numbers ---------------------------------------------------------------------------------

  /** Leading zeros, and nothing in front of or behind the point, but a digit or a minus first. */
  predicate LooseNumeral(n: Numeral) {
    && AllDigits(n.whole) && (n.frac.Some? ==> AllDigits(n.frac.value))
    && (n.neg || n.whole != []) && (n.whole != [] || FracDigits(n.frac) != [])
    && (n.exp.Some? ==> ValidExponent(n.exp.value))
  }

  function LooseNumber(n: Numeral): real
    requires LooseNumeral(n)
  {
    Scaled(n.neg, DigitsValue(n.whole + FracDigits(n.frac)), ExpValue(n.exp) - |FracDigits(n.frac)|)
  }

  // --- Values ----------------------------------------------------------------------------------

  predicate LooseWs(ws: bytes) {
    forall k | 0 <= k < |ws| :: ws[k] <= 32
  }

  predicate Loose(c: Cst) {
    match c
    case CNumber(n) => LooseNumeral(n)
    case CString(ps) => LoosePieces(ps, false)
    case CEmptyArray(ws) => LooseWs(ws)
    case CArray(elems) => LooseElems(elems)
    case CEmptyObject(ws) => LooseWs(ws)
    case CObject(mems) => LooseMems(mems)
    case _ => true
  }

  predicate LooseElems(e: Elems) {
    LooseWs(e.pre) && Loose(e.v) && LooseWs(e.post) && (e.MoreElems? ==> LooseElems(e.rest))
  }

  predicate LooseEntry(m: Entry) {
    && LooseWs(m.pre) && LoosePieces(m.key, false) && LooseWs(m.mid)
    && LooseWs(m.colon) && Loose(m.v) && LooseWs(m.post)
  }

  predicate LooseMems(ms: Mems) {
    LooseEntry(ms.m) && (ms.MoreMems? ==> LooseMems(ms.rest))
  }

  function LooseDenotes(c: Cst): Value
    requires Loose(c)
  {
    match c
    case CNull => Null
    case CTrue => Bool(true)
    case CFalse => Bool(false)
    case CNumber(n) => Number(LooseNumber(n))
    case CString(ps) => String(LooseValue(ps, false))
    case CEmptyArray(_) => Array([])
    case CArray(elems) => Array(LooseElemsDenote(elems))
    case CEmptyObject(_) => Object([])
    case CObject(mems) => Object(LooseMemsDenote(mems))
  }

  function LooseElemsDenote(e: Elems): (vs: seq<Value>)
    requires LooseElems(e)
  {
    if e.MoreElems? then [LooseDenotes(e.v)] + LooseElemsDenote(e.rest) else [LooseDenotes(e.v)]
  }

  function LooseEntryDenotes(m: Entry): Member
    requires LooseEntry(m)
  {
    Member(LooseValue(m.key, false), LooseDenotes(m.v))
  }

  function LooseMemsDenote(ms: Mems): (vs: seq<Member>)
    requires LooseMems(ms)
  {
    if ms.MoreMems? then [LooseEntryDenotes(ms.m)] + LooseMemsDenote(ms.rest) else [LooseEntryDenotes(ms.m)]
  }
}
