/**
  * Greedy word wrap over UTF-8 text. Texts are C strings; positions are byte offsets. The code reads a
  * character without looking for the terminator inside it, so a text must not end within a character.
  */
module WordWrap {
  import opened BitOps
  import opened Bytes
  import opened Utf8Encoding

  // --- Characters --------------------------------------------------------------------------

  /** utf8_clen, by the lead byte alone. */
  function CharLength(b: byte): (n: nat)
    ensures 1 <= n <= 4
  {
    if b < 0xC0 then 1 else if b < 0xE0 then 2 else if b < 0xF0 then 3 else 4
  }

  /** The ranges drawn two columns wide. */
  predicate Wide(cp: nat) {
    || 0x1100 <= cp <= 0x115F
    || 0x2E80 <= cp <= 0x303E
    || 0x3040 <= cp <= 0xA4CF
    || 0xAC00 <= cp <= 0xD7A3
    || 0xF900 <= cp <= 0xFAFF
    || 0xFF01 <= cp <= 0xFF60
    || 0xFFE0 <= cp <= 0xFFE6
  }

  /** The first code point of each wide range, and the first behind it. */
  const WIDE_EDGES: set<nat> := {0x1100, 0x1160, 0x2E80, 0x303F, 0x3040, 0xA4D0, 0xAC00, 0xD7A4,
                                 0xF900, 0xFB00, 0xFF01, 0xFF61, 0xFFE0, 0xFFE7}

  /** From code point 0, which is narrow, the width changes at the edges and nowhere else. */
  lemma WideChangesAtEdges(cp: nat)
    ensures !Wide(0)
    ensures Wide(cp) != Wide(cp + 1) <==> cp + 1 in WIDE_EDGES
  {
  }

  /** The bits of three bytes put together; shifts are written as products. */
  function CodePoint(a: byte, b: byte, c: byte): nat {
    BitOr(BitOr(BitAnd(a, 0x0F) * 4096, BitAnd(b, 0x3F) * 64), BitAnd(c, 0x3F))
  }

  /** There is a whole character at `p`. */
  predicate Whole(t: bytes, p: nat) {
    p < |t| && p + CharLength(t[p]) <= |t|
  }

  function Next(t: bytes, p: nat): (q: nat)
    requires Whole(t, p)
    ensures p < q <= |t|
  {
    p + CharLength(t[p])
  }

  /** utf8_cwidth. */
  function CharWidth(t: bytes, p: nat): (w: nat)
    requires Whole(t, p)
    ensures 1 <= w <= 2
  {
    if t[p] < 0xE0 then 1
    else if t[p] < 0xF0 then
      if Wide(CodePoint(t[p], t[p + 1], t[p + 2])) then 2 else 1
    else 2
  }

  /** The bytes of a code point are one character, two columns wide if the table says so or it takes four bytes. */
  lemma WidthOfCodePoint(cp: nat)
    requires IsScalar(cp)
    ensures CharLength(Utf8Bytes(cp)[0]) == |Utf8Bytes(cp)| && Whole(Utf8Bytes(cp), 0)
    ensures CharWidth(Utf8Bytes(cp), 0) == if cp >= 0x10000 || Wide(cp) then 2 else 1
  {
    hide CodePoint, Wide;
    var t := Utf8Bytes(cp);
    if 0x800 <= cp < 0x10000 {
      ThreeByteCode(cp);
    } else {
      assert !Wide(cp) || cp >= 0x10000 by { WideRange(cp); }
    }
  }

  lemma WideRange(cp: nat)
    ensures Wide(cp) ==> 0x1100 <= cp < 0x10000
  {
  }

  lemma ThreeByteCode(cp: nat)
    requires 0x800 <= cp < 0x10000
    ensures CodePoint(0xE0 + cp / 4096, 0x80 + cp / 64 % 64, 0x80 + cp % 64) == cp
  {
    hide BitAnd, BitOr;
    var a, b, c := cp / 4096, cp / 64 % 64, cp % 64;
    ThreeByteBits(0xE0 + a, 0x80 + b, 0x80 + c);
    assert (0xE0 + a) % 16 == a && (0x80 + b) % 64 == b && (0x80 + c) % 64 == c;
    assert cp == cp / 64 * 64 + c && cp / 64 == a * 64 + b;
  }

  /** From `p` on, the text is a sequence of whole characters. */
  predicate Aligned(t: bytes, p: nat)
    decreases |t| - p
  {
    p == |t| || (Whole(t, p) && Aligned(t, Next(t, p)))
  }

  /** `q` is reached from `p` character by character. */
  predicate Boundary(t: bytes, p: nat, q: nat)
    decreases |t| - p
  {
    p == q || (Whole(t, p) && Boundary(t, Next(t, p), q))
  }

  /** Columns of the characters from `p` to `q`. */
  function Columns(t: bytes, p: nat, q: nat): (n: nat)
    requires Boundary(t, p, q)
    decreases |t| - p
  {
    if p == q then 0 else CharWidth(t, p) + Columns(t, Next(t, p), q)
  }

  predicate IsBlank(b: byte) {
    b == SPACE || b == TAB
  }

  lemma {:induction false} BoundaryFacts(t: bytes, p: nat, q: nat)
    requires Boundary(t, p, q) && Aligned(t, p)
    ensures p <= q <= |t| && Aligned(t, q)
    ensures p < q <==> Columns(t, p, q) > 0
    decreases |t| - p
  {
    if p != q {
      BoundaryFacts(t, Next(t, p), q);
    }
  }

  lemma {:induction false} BoundaryTrans(t: bytes, p: nat, q: nat, r: nat)
    requires Boundary(t, p, q) && Boundary(t, q, r) && p <= q <= r
    ensures Boundary(t, p, r) && Columns(t, p, r) == Columns(t, p, q) + Columns(t, q, r)
    decreases |t| - p
  {
    if p != q {
      BoundaryAbove(t, Next(t, p), q);
      BoundaryTrans(t, Next(t, p), q, r);
    }
  }

  lemma {:induction false} BoundaryAbove(t: bytes, p: nat, q: nat)
    requires Boundary(t, p, q)
    ensures p <= q
    decreases |t| - p
  {
    if p != q {
      BoundaryAbove(t, Next(t, p), q);
    }
  }

  // --- One row, in two passes --------------------------------------------------------------

  /** First character that ends the row: a newline, one that does not fit, or the end of the text. */
  function Stop(t: bytes, p: nat, avail: int): (q: nat)
    requires Aligned(t, p)
    ensures Boundary(t, p, q) && p <= q <= |t| && Aligned(t, q)
    ensures Columns(t, p, q) <= if avail < 0 then 0 else avail
    ensures q == |t| || t[q] == LF || Columns(t, p, q) + CharWidth(t, q) > avail
    decreases |t| - p
  {
    if p == |t| || t[p] == LF || CharWidth(t, p) > avail then p
    else Stop(t, Next(t, p), avail - CharWidth(t, p))
  }

  /** The last blank from `p` on and before `q`. */
  function LastBlank(t: bytes, p: nat, q: nat): (b: Option<nat>)
    requires Boundary(t, p, q)
    ensures b.Some? ==> p <= b.value < q && b.value < |t| && IsBlank(t[b.value]) && Boundary(t, p, b.value)
    decreases |t| - p
  {
    if p == q then None
    else
      BoundaryAbove(t, Next(t, p), q);
      var later := LastBlank(t, Next(t, p), q);
      if later.Some? then later else if IsBlank(t[p]) then Some(p) else None
  }

  /** Where the row may be broken: a blank that is not its first character. */
  function BreakIn(t: bytes, p: nat, q: nat): Option<nat>
    requires Boundary(t, p, q)
  {
    if p == q then None else LastBlank(t, Next(t, p), q)
  }

  function SkipBlanks(t: bytes, p: nat): (q: nat)
    requires p <= |t|
    ensures p <= q <= |t| && forall k | p <= k < q :: IsBlank(t[k])
    ensures q < |t| ==> !IsBlank(t[q])
    decreases |t| - p
  {
    if p < |t| && IsBlank(t[p]) then SkipBlanks(t, p + 1) else p
  }

  /** The end of the row at `p`, and the start of the next. */
  function Wrap(t: bytes, p: nat, avail: nat): (r: (nat, nat))
    requires Aligned(t, p)
  {
    var q := Stop(t, p, avail);
    if q == |t| then (q, q)
    else if t[q] == LF then (q, q + 1)
    else
      match BreakIn(t, p, q)
      case None => (q, q)
      case Some(b) => (b, SkipBlanks(t, b + 1))
  }

  /** Columns left for text, at least one. */
  function Avail(x: int, width: int): (n: nat)
    ensures n >= 1
  {
    if width - x < 1 then 1 else width - x
  }

  // --- What a row guarantees ---------------------------------------------------------------

  lemma {:induction false} BlanksAreBoundaries(t: bytes, p: nat, q: nat)
    requires p <= q <= |t| && forall k | p <= k < q :: IsBlank(t[k])
    ensures Boundary(t, p, q)
    decreases q - p
  {
    if p < q {
      BlanksAreBoundaries(t, p + 1, q);
    }
  }

  /**
    * A row ends and the next begins at character boundaries, it is no wider than the free columns, and
    * what lies between the two is blanks or one newline.
    */
  lemma RowIsSound(t: bytes, p: nat, avail: nat)
    requires Aligned(t, p)
    ensures var (end, next) := Wrap(t, p, avail);
      && p <= end <= next <= |t|
      && Boundary(t, p, end) && Columns(t, p, end) <= avail
      && Boundary(t, p, next) && Aligned(t, next)
      && ((forall k | end <= k < next :: IsBlank(t[k])) || (next == end + 1 && t[end] == LF))
  {
    var q := Stop(t, p, avail);
    var (end, next) := Wrap(t, p, avail);
    if q < |t| && t[q] == LF {
      BoundaryTrans(t, p, q, q + 1);
    } else if q < |t| && BreakIn(t, p, q).Some? {
      BreakIsSound(t, p, q, avail);
    }
  }

  lemma BreakIsSound(t: bytes, p: nat, q: nat, avail: nat)
    requires Aligned(t, p) && Boundary(t, p, q) && Columns(t, p, q) <= avail && BreakIn(t, p, q).Some?
    ensures var b := BreakIn(t, p, q).value;
      && p < b < q <= |t| && IsBlank(t[b]) && Boundary(t, p, b) && Columns(t, p, b) <= avail
      && Boundary(t, p, SkipBlanks(t, b + 1)) && Aligned(t, SkipBlanks(t, b + 1))
  {
    var b := BreakIn(t, p, q).value;
    BoundaryFacts(t, p, q);
    BoundaryTrans(t, p, Next(t, p), b);
    BreakIsBoundary(t, Next(t, p), q);
    BoundaryTrans(t, p, b, q);
    BlanksAreBoundaries(t, b, SkipBlanks(t, b + 1));
    BoundaryTrans(t, p, b, SkipBlanks(t, b + 1));
    BoundaryFacts(t, p, SkipBlanks(t, b + 1));
  }

  lemma {:induction false} BreakIsBoundary(t: bytes, p: nat, q: nat)
    requires Boundary(t, p, q) && LastBlank(t, p, q).Some?
    ensures Boundary(t, LastBlank(t, p, q).value, q)
    decreases |t| - p
  {
    if p != q && LastBlank(t, Next(t, p), q).Some? {
      BreakIsBoundary(t, Next(t, p), q);
    }
  }

  /** A character too wide for a row of its own: two columns where one is free. */
  predicate Stuck(t: bytes, p: nat, avail: nat) {
    Whole(t, p) && t[p] != LF && CharWidth(t, p) > avail
  }

  /** A row makes progress exactly when there is text left and its first character fits. */
  lemma ProgressExactly(t: bytes, p: nat, avail: nat)
    requires Aligned(t, p)
    ensures Wrap(t, p, avail).1 > p <==> p < |t| && !Stuck(t, p, avail)
  {
    if p < |t| && !Stuck(t, p, avail) && t[p] != LF {
      var q := Stop(t, Next(t, p), avail - CharWidth(t, p));
      assert Stop(t, p, avail) == q > p;
    }
  }

  /** No other break is later: between the chosen one and the end of what fits there is no blank. */
  lemma BreaksAtLastBlank(t: bytes, p: nat, avail: nat, r: nat)
    requires Aligned(t, p) && Stop(t, p, avail) < |t| && t[Stop(t, p, avail)] != LF
    requires Boundary(t, p, r) && p < r < Stop(t, p, avail) && IsBlank(t[r])
    ensures r <= Wrap(t, p, avail).0 < Stop(t, p, avail)
  {
    var q := Stop(t, p, avail);
    LaterBlank(t, Next(t, p), q, r);
  }

  lemma {:induction false} LaterBlank(t: bytes, p: nat, q: nat, r: nat)
    requires Boundary(t, p, q) && Boundary(t, p, r) && r < q && r < |t| && IsBlank(t[r])
    ensures LastBlank(t, p, q).Some? && LastBlank(t, p, q).value >= r
    decreases |t| - p
  {
    BoundaryAbove(t, p, r);
    if p != r {
      LaterBlank(t, Next(t, p), q, r);
    }
  }

  /** Characters from `p` to `q`, none of them a newline. */
  predicate OneLine(t: bytes, p: nat, q: nat): (r: bool)
    ensures r ==> Boundary(t, p, q)
    decreases |t| - p
  {
    p == q || (Whole(t, p) && t[p] != LF && OneLine(t, Next(t, p), q))
  }

  /** A blank that is not the row's first character. */
  predicate Breakable(t: bytes, p: nat, q: nat, b: nat) {
    p < b < q && b < |t| && Boundary(t, p, b) && IsBlank(t[b])
  }

  lemma {:induction false} StopIs(t: bytes, p: nat, avail: int, q: nat)
    requires Aligned(t, p) && OneLine(t, p, q) && q <= |t| && Columns(t, p, q) <= avail
    requires q == |t| || (Whole(t, q) && (t[q] == LF || Columns(t, p, q) + CharWidth(t, q) > avail))
    ensures Stop(t, p, avail) == q
    decreases |t| - p
  {
    hide CharWidth;
    if p != q {
      BoundaryAbove(t, Next(t, p), q);
      StopIs(t, Next(t, p), avail - CharWidth(t, p), q);
    }
  }

  /**
    * The row at `p`, given `q`, where the text, the line or the room ends: it ends there if the line does,
    * and else at the last place to break, if there is one; the next row begins behind the newline or the
    * blanks.
    */
  lemma RowExactly(t: bytes, p: nat, avail: nat, q: nat)
    requires Aligned(t, p) && OneLine(t, p, q) && q <= |t| && Columns(t, p, q) <= avail
    requires q == |t| || (Whole(t, q) && (t[q] == LF || Columns(t, p, q) + CharWidth(t, q) > avail))
    ensures var (end, next) := Wrap(t, p, avail);
      && (q == |t| ==> end == next == q)
      && (q < |t| && t[q] == LF ==> end == q && next == q + 1)
      && (q < |t| && t[q] != LF && (forall b: nat :: !Breakable(t, p, q, b)) ==> end == next == q)
      && (q < |t| && t[q] != LF && (exists b: nat :: Breakable(t, p, q, b)) ==>
            && Breakable(t, p, q, end) && (forall b: nat | Breakable(t, p, q, b) :: b <= end)
            && end < next <= |t| && (forall k | end <= k < next :: IsBlank(t[k]))
            && (next < |t| ==> !IsBlank(t[next])))
  {
    hide CharWidth, Columns;
    StopIs(t, p, avail, q);
    if q < |t| && t[q] != LF && p != q {
      forall b: nat | Breakable(t, p, q, b)
        ensures LastBlank(t, Next(t, p), q).Some? && LastBlank(t, Next(t, p), q).value >= b
      {
        LaterBlank(t, Next(t, p), q, b);
      }
      if BreakIn(t, p, q).Some? {
        BoundaryAbove(t, Next(t, p), BreakIn(t, p, q).value);
        assert Breakable(t, p, q, BreakIn(t, p, q).value);
      }
    }
  }

  // --- One row, in one pass ----------------------------------------------------------------

  /** A character at the end: the last blank is it, or the one before. */
  lemma {:induction false} BlankAppends(t: bytes, p: nat, q: nat)
    requires Boundary(t, p, q) && Whole(t, q)
    ensures Boundary(t, p, Next(t, q))
    ensures LastBlank(t, p, Next(t, q)) == if IsBlank(t[q]) then Some(q) else LastBlank(t, p, q)
    ensures Columns(t, p, Next(t, q)) == Columns(t, p, q) + CharWidth(t, q)
    decreases |t| - p
  {
    BoundaryAbove(t, p, q);
    if p != q {
      BlankAppends(t, Next(t, p), q);
    }
  }

  /** What the loop remembers: `last_end` and `last_space` of the last place to break. */
  ghost predicate Remembers(t: bytes, p: nat, q: nat, lastEnd: int, lastSpace: int)
    requires Boundary(t, p, q)
  {
    match BreakIn(t, p, q)
    case None => lastSpace == -1
    case Some(b) => b < |t| && lastEnd == b && lastSpace == SkipBlanks(t, b + 1)
  }

  lemma RemembersNext(t: bytes, p: nat, q: nat, lastEnd: int, lastSpace: int)
    requires Boundary(t, p, q) && Whole(t, q) && Remembers(t, p, q, lastEnd, lastSpace)
    ensures Boundary(t, p, Next(t, q))
    ensures IsBlank(t[q]) && p < q ==> Remembers(t, p, Next(t, q), q, SkipBlanks(t, q + 1))
    ensures !IsBlank(t[q]) || p == q ==> Remembers(t, p, Next(t, q), lastEnd, lastSpace)
  {
    BoundaryAbove(t, p, q);
    BlankAppends(t, p, q);
    if p != q {
      BlankAppends(t, Next(t, p), q);
    }
  }

  method PastBlanks(t: bytes, p: nat) returns (q: nat)
    requires p <= |t|
    ensures q == SkipBlanks(t, p)
  {
    q := p;
    while q < |t| && (t[q] == SPACE || t[q] == TAB)
      invariant p <= q <= |t| && SkipBlanks(t, q) == SkipBlanks(t, p)
    {
      q := q + 1;
    }
  }

  /** wrap_line_end; -1 stands for a NULL pointer. */
  method WrapLineEnd(t: bytes, start: nat, x: int, width: int) returns (end: nat, next: nat)
    requires start <= |t| && Aligned(t, start)
    ensures (end, next) == Wrap(t, start, Avail(x, width))
  {
    hide CharWidth, CharLength, Remembers, Wrap, Columns, Boundary, Next;
    var avail := width - x;
    if avail < 1 {
      avail := 1;
    }
    var p, col := start, 0;
    var lastSpace: int, lastEnd: int := -1, -1;
    NothingRemembered(t, start);
    while p < |t| && t[p] != LF
      invariant start <= p <= |t| && Boundary(t, start, p) && Aligned(t, p)
      invariant col == Columns(t, start, p) && (col > 0 <==> start < p)
      invariant Stop(t, start, avail) == Stop(t, p, avail - col)
      invariant Remembers(t, start, p, lastEnd, lastSpace)
      decreases |t| - p
    {
      var cw := CharWidth(t, p);
      if col + cw > avail {
        RowOverflows(t, start, p, avail, lastEnd, lastSpace);
        if lastSpace != -1 {
          return lastEnd, lastSpace;
        }
        return p, p;
      }
      RemembersNext(t, start, p, lastEnd, lastSpace);
      BlankAppends(t, start, p);
      if (t[p] == SPACE || t[p] == TAB) && col > 0 {
        lastEnd := p;
        lastSpace := PastBlanks(t, p + 1);
      }
      col := col + cw;
      p := Next(t, p);
    }
    RowFits(t, start, avail);
    return p, if p < |t| then p + 1 else p;
  }

  lemma RowOverflows(t: bytes, start: nat, p: nat, avail: nat, lastEnd: int, lastSpace: int)
    requires Aligned(t, start) && Boundary(t, start, p) && p < |t| && t[p] != LF && Stop(t, start, avail) == p
    requires Remembers(t, start, p, lastEnd, lastSpace)
    ensures if lastSpace == -1 then Wrap(t, start, avail) == (p, p)
            else lastEnd >= 0 && lastSpace >= 0 && Wrap(t, start, avail) == (lastEnd, lastSpace)
  {
  }

  lemma RowFits(t: bytes, start: nat, avail: nat)
    requires Aligned(t, start) && (Stop(t, start, avail) == |t| || t[Stop(t, start, avail)] == LF)
    ensures var q := Stop(t, start, avail);
      Wrap(t, start, avail) == (q, if q < |t| then q + 1 else q)
  {
  }

  lemma NothingRemembered(t: bytes, p: nat)
    ensures Boundary(t, p, p) && Columns(t, p, p) == 0 && Remembers(t, p, p, -1, -1)
  {
  }

  // --- All rows ----------------------------------------------------------------------------

  /** Free columns of row `n`: the first starts at `x`, the others at `indent`. */
  function RowAvail(n: nat, x: int, indent: int, width: int): nat {
    Avail(if n == 0 then x else indent, width)
  }

  /** Where row `n` starts; past the last row, the end of the text. */
  function RowStart(t: bytes, n: nat, x: int, indent: int, width: int): (p: nat)
    requires Aligned(t, 0)
    ensures p <= |t| && Aligned(t, p)
  {
    if n == 0 then 0
    else
      var p := RowStart(t, n - 1, x, indent, width);
      RowIsSound(t, p, RowAvail(n - 1, x, indent, width));
      Wrap(t, p, RowAvail(n - 1, x, indent, width)).1
  }

  /** Row `n` begins with a character it has no room for. */
  predicate StuckRow(t: bytes, n: nat, x: int, indent: int, width: int)
    requires Aligned(t, 0)
  {
    Stuck(t, RowStart(t, n, x, indent, width), RowAvail(n, x, indent, width))
  }

  predicate Ended(t: bytes, n: nat, x: int, indent: int, width: int)
    requires Aligned(t, 0)
  {
    RowStart(t, n, x, indent, width) == |t|
  }

  /** No character two columns wide from `p` on. */
  predicate Narrow(t: bytes, p: nat)
    requires Aligned(t, p)
    decreases |t| - p
  {
    p == |t| || (CharWidth(t, p) == 1 && Narrow(t, Next(t, p)))
  }

  /**
    * Decided by one row and one look at the rest: continuation rows have two free columns, or nothing
    * behind the first row is two columns wide.
    */
  predicate Wraps(t: bytes, x: int, indent: int, width: int)
    requires Aligned(t, 0)
  {
    RowIsSound(t, 0, Avail(x, width));
    width - indent >= 2 || Narrow(t, Wrap(t, 0, Avail(x, width)).1)
  }

  lemma {:induction false} NarrowBehind(t: bytes, p: nat, q: nat)
    requires Aligned(t, p) && Boundary(t, p, q) && Narrow(t, p)
    ensures q <= |t| && Aligned(t, q) && Narrow(t, q)
    decreases |t| - p
  {
    if p != q {
      NarrowBehind(t, Next(t, p), q);
    }
  }

  /** At most one column lies before `q`. */
  lemma NarrowBefore(t: bytes, p: nat, q: nat)
    requires Aligned(t, p) && Aligned(t, q) && Boundary(t, p, q) && Columns(t, p, q) <= 1 && Narrow(t, q)
    ensures Narrow(t, p)
  {
    if p != q {
      BoundaryFacts(t, Next(t, p), q);
    }
  }

  lemma {:induction false} BlanksAreNarrow(t: bytes, p: nat, q: nat)
    requires p <= q && Aligned(t, q) && forall k | p <= k < q && k < |t| :: IsBlank(t[k])
    requires q <= |t| && Narrow(t, q)
    ensures Aligned(t, p) && Narrow(t, p)
    decreases q - p
  {
    if p < q {
      BlanksAreNarrow(t, p + 1, q);
    }
  }

  /** A row of one column does not get past a wide character. */
  lemma WideStays(t: bytes, p: nat)
    requires Aligned(t, p) && Aligned(t, Wrap(t, p, 1).1) && Narrow(t, Wrap(t, p, 1).1)
    ensures Narrow(t, p)
  {
    RowIsSound(t, p, 1);
    var (end, next) := Wrap(t, p, 1);
    BoundaryFacts(t, p, end);
    if next != end + 1 || t[end] != LF {
      BlanksAreNarrow(t, end, next);
    }
    NarrowBefore(t, p, end);
  }

  lemma {:induction false} WideForever(t: bytes, n: nat, x: int, indent: int, width: int)
    requires Aligned(t, 0) && !Wraps(t, x, indent, width) && n > 0
    ensures !Narrow(t, RowStart(t, n, x, indent, width))
  {
    hide Wrap, Aligned, Boundary, Columns, Narrow;
    RowIsSound(t, 0, Avail(x, width));
    if n == 1 {
      assert RowStart(t, 0, x, indent, width) == 0;
    } else {
      WideForever(t, n - 1, x, indent, width);
      var p := RowStart(t, n - 1, x, indent, width);
      RowIsSound(t, p, 1);
      if Narrow(t, Wrap(t, p, 1).1) {
        WideStays(t, p);
      }
    }
  }

  lemma {:induction false} RowsBehind(t: bytes, n: nat, x: int, indent: int, width: int)
    requires Aligned(t, 0) && n > 0 && Narrow(t, RowStart(t, 1, x, indent, width))
    ensures Narrow(t, RowStart(t, n, x, indent, width))
  {
    hide Wrap, Aligned, Boundary, Columns, Narrow;
    if n > 1 {
      RowsBehind(t, n - 1, x, indent, width);
      var p := RowStart(t, n - 1, x, indent, width);
      RowIsSound(t, p, RowAvail(n - 1, x, indent, width));
      NarrowBehind(t, p, RowStart(t, n, x, indent, width));
    }
  }

  lemma NotStuck(t: bytes, n: nat, x: int, indent: int, width: int)
    requires Aligned(t, 0) && Wraps(t, x, indent, width) && n > 0
    ensures !StuckRow(t, n, x, indent, width)
  {
    if width - indent < 2 {
      assert RowStart(t, 0, x, indent, width) == 0;
      assert RowStart(t, 1, x, indent, width) == Wrap(t, 0, Avail(x, width)).1;
      RowsBehind(t, n, x, indent, width);
    }
  }

  /**
    * Wrapping row after row comes to an end exactly when continuation rows have two free columns or no
    * wide character is left behind the first row.
    */
  lemma EndsExactly(t: bytes, x: int, indent: int, width: int)
    requires Aligned(t, 0)
    ensures (exists n: nat :: Ended(t, n, x, indent, width)) <==> t == [] || Wraps(t, x, indent, width)
  {
    if t == [] {
      assert Ended(t, 0, x, indent, width);
    } else if Wraps(t, x, indent, width) {
      Advances(t, |t| + 1, x, indent, width);
      assert Ended(t, |t| + 1, x, indent, width);
    } else {
      forall n: nat ensures !Ended(t, n, x, indent, width) {
        if n > 0 {
          WideForever(t, n, x, indent, width);
        }
      }
    }
  }

  /** Where all rows begin in one column, as they do for every caller, the text alone decides. */
  lemma EndsAtIndent(t: bytes, indent: int, width: int)
    requires Aligned(t, 0)
    ensures (exists n: nat :: Ended(t, n, indent, indent, width)) <==> width - indent >= 2 || Narrow(t, 0)
  {
    EndsExactly(t, indent, indent, width);
    RowIsSound(t, 0, Avail(indent, width));
    var next := Wrap(t, 0, Avail(indent, width)).1;
    if width - indent < 2 {
      if Narrow(t, next) {
        WideStays(t, 0);
      }
      if Narrow(t, 0) {
        NarrowBehind(t, 0, next);
      }
    }
  }

  /** U+4E2D is two columns wide. */
  const WIDE_CHARACTER: bytes := [0xE4, 0xB8, 0xAD]

  lemma WideCharacter()
    ensures Aligned(WIDE_CHARACTER, 0) && CharWidth(WIDE_CHARACTER, 0) == 2
  {
    hide BitAnd, BitOr;
    ThreeByteBits(0xE4, 0xB8, 0xAD);
    assert Aligned(WIDE_CHARACTER, 3);
  }

  /** It never ends where one column is free. */
  lemma WideNeverEnds(n: nat, x: int, indent: int, width: int)
    requires width - x <= 1 && width - indent <= 1
    ensures Aligned(WIDE_CHARACTER, 0) && !Ended(WIDE_CHARACTER, n, x, indent, width)
  {
    hide CodePoint;
    WideCharacter();
    assert Wrap(WIDE_CHARACTER, 0, 1) == (0, 0);
    EndsExactly(WIDE_CHARACTER, x, indent, width);
  }

  lemma {:induction false} Advances(t: bytes, n: nat, x: int, indent: int, width: int)
    requires Aligned(t, 0) && Wraps(t, x, indent, width)
    ensures RowStart(t, n, x, indent, width) >= if n <= |t| then n - 1 else |t|
  {
    hide Wraps, Wrap;
    if n > 1 {
      Advances(t, n - 1, x, indent, width);
      NotStuck(t, n - 1, x, indent, width);
      ProgressExactly(t, RowStart(t, n - 1, x, indent, width), RowAvail(n - 1, x, indent, width));
      RowIsSound(t, RowStart(t, n - 1, x, indent, width), RowAvail(n - 1, x, indent, width));
    }
  }

  /** Two free columns are always enough; so is any width when every character is narrow. */
  lemma EnoughRoom(t: bytes, x: int, indent: int, width: int)
    requires Aligned(t, 0)
    requires width - indent >= 2 || forall p | 0 <= p < |t| :: t[p] < 0xE0
    ensures Wraps(t, x, indent, width)
  {
    RowIsSound(t, 0, Avail(x, width));
    if width - indent < 2 {
      SmallBytesAreNarrow(t, Wrap(t, 0, Avail(x, width)).1);
    }
  }

  lemma {:induction false} SmallBytesAreNarrow(t: bytes, p: nat)
    requires Aligned(t, p) && forall k | 0 <= k < |t| :: t[k] < 0xE0
    ensures Narrow(t, p)
    decreases |t| - p
  {
    if p != |t| {
      SmallBytesAreNarrow(t, Next(t, p));
    }
  }

  // --- Texts cut within a character --------------------------------------------------------

  /** utf8_cwidth on any text, whose byte behind the end is NUL; None when it reads behind that. */
  function RawWidth(t: bytes, p: nat): (w: Option<nat>)
    requires p < |t|
    ensures w.Some? ==> 1 <= w.value <= 2
    ensures Whole(t, p) ==> w == Some(CharWidth(t, p))
  {
    if t[p] < 0xE0 then Some(1)
    else if t[p] < 0xF0 then
      if p + 2 > |t| then None
      else if Wide(CodePoint(t[p], (t + [0])[p + 1], (t + [0])[p + 2])) then Some(2)
      else Some(1)
    else Some(2)
  }

  /** Where the row loop stops, on any text; None when it reads behind the NUL. */
  function RawStop(t: bytes, p: nat, avail: int): (q: Option<nat>)
    ensures q.Some? ==> p <= q.value <= |t| && Boundary(t, p, q.value)
    decreases |t| - p
  {
    if p > |t| then None
    else if p == |t| || t[p] == LF then Some(p)
    else
      var w := RawWidth(t, p);
      if w.None? then None
      else if w.value > avail then Some(p)
      else RawStop(t, p + CharLength(t[p]), avail - w.value)
  }

  /** Where the next row starts, on any text. */
  function RawNext(t: bytes, p: nat, avail: nat): (next: Option<nat>)
    ensures next.Some? ==> p <= next.value <= |t|
  {
    match RawStop(t, p, avail)
    case None => None
    case Some(q) =>
      if q == |t| then Some(q)
      else if t[q] == LF then Some(q + 1)
      else
        match BreakIn(t, p, q)
        case None => Some(q)
        case Some(b) => Some(SkipBlanks(t, b + 1))
  }

  /** Where row `n` starts, on any text; None once a row before it was read behind the NUL. */
  function RawStart(t: bytes, n: nat, x: int, indent: int, width: int): (p: Option<nat>)
    ensures p.Some? ==> p.value <= |t|
  {
    if n == 0 then Some(0)
    else
      match RawStart(t, n - 1, x, indent, width)
      case None => None
      case Some(p) => RawNext(t, p, RowAvail(n - 1, x, indent, width))
  }

  /** The rows before row `n` were found without reading behind the NUL. */
  predicate ReadInside(t: bytes, n: nat, x: int, indent: int, width: int) {
    RawStart(t, n, x, indent, width).Some?
  }

  lemma {:induction false} AlignedStop(t: bytes, p: nat, avail: int)
    requires Aligned(t, p)
    ensures RawStop(t, p, avail) == Some(Stop(t, p, avail))
    decreases |t| - p
  {
    hide CharWidth;
    if p < |t| && t[p] != LF && CharWidth(t, p) <= avail {
      AlignedStop(t, Next(t, p), avail - CharWidth(t, p));
    }
  }

  lemma {:induction false} AlignedRows(t: bytes, n: nat, x: int, indent: int, width: int)
    requires Aligned(t, 0)
    ensures RawStart(t, n, x, indent, width) == Some(RowStart(t, n, x, indent, width))
  {
    hide RawNext, Wrap, Aligned;
    if n > 0 {
      AlignedRows(t, n - 1, x, indent, width);
      AlignedNext(t, RowStart(t, n - 1, x, indent, width), RowAvail(n - 1, x, indent, width));
    }
  }

  lemma AlignedNext(t: bytes, p: nat, avail: nat)
    requires Aligned(t, p)
    ensures RawNext(t, p, avail) == Some(Wrap(t, p, avail).1)
  {
    hide RawStop, Stop, Aligned, Boundary;
    AlignedStop(t, p, avail);
  }

  lemma {:induction false} AlignedBefore(t: bytes, p: nat, q: nat)
    requires Boundary(t, p, q) && Aligned(t, q)
    ensures Aligned(t, p)
    decreases |t| - p
  {
    if p != q {
      AlignedBefore(t, Next(t, p), q);
    }
  }

  /** With two free columns, a row gets on, and up to a character boundary, as far as it is read at all. */
  lemma RawMoves(t: bytes, p: nat, avail: nat)
    requires p < |t| && avail >= 2 && RawNext(t, p, avail).Some?
    ensures RawNext(t, p, avail).value > p && Boundary(t, p, RawNext(t, p, avail).value)
  {
    hide RawWidth;
    var q := RawStop(t, p, avail).value;
    if q < |t| && t[q] == LF {
      BoundaryTrans(t, p, q, q + 1);
    } else if q < |t| && BreakIn(t, p, q).Some? {
      var b := BreakIn(t, p, q).value;
      BoundaryTrans(t, p, Next(t, p), b);
      BlanksAreBoundaries(t, b, SkipBlanks(t, b + 1));
      BoundaryTrans(t, p, b, SkipBlanks(t, b + 1));
    }
  }

  lemma {:induction false} CutRemains(t: bytes, n: nat, x: int, indent: int, width: int)
    requires !Aligned(t, 0) && width - x >= 2 && width - indent >= 2
    requires RawStart(t, n, x, indent, width).Some?
    ensures n <= RawStart(t, n, x, indent, width).value < |t|
    ensures !Aligned(t, RawStart(t, n, x, indent, width).value)
  {
    hide RawNext, Aligned, Boundary;
    if n == 0 {
      assert t != [] by { EmptyIsAligned(t); }
    } else {
      CutRemains(t, n - 1, x, indent, width);
      var p := RawStart(t, n - 1, x, indent, width).value;
      RawMoves(t, p, RowAvail(n - 1, x, indent, width));
      var next := RawStart(t, n, x, indent, width).value;
      if Aligned(t, next) {
        AlignedBefore(t, p, next);
      }
      assert next < |t| by { EndIsAligned(t); }
    }
  }

  lemma EmptyIsAligned(t: bytes)
    ensures t == [] ==> Aligned(t, 0)
  {
  }

  lemma EndIsAligned(t: bytes)
    ensures Aligned(t, |t|)
  {
  }

  /**
    * Row after row, nothing behind the NUL is read exactly when the text does not end within a character,
    * provided there are two free columns; with fewer, a row may never get to the end.
    */
  lemma ReadsInsideExactly(t: bytes, x: int, indent: int, width: int)
    ensures Aligned(t, 0) ==>
      forall n: nat :: RawStart(t, n, x, indent, width) == Some(RowStart(t, n, x, indent, width))
    ensures width - x >= 2 && width - indent >= 2 ==>
      ((forall n: nat :: ReadInside(t, n, x, indent, width)) <==> Aligned(t, 0))
  {
    if Aligned(t, 0) {
      forall n: nat ensures RawStart(t, n, x, indent, width) == Some(RowStart(t, n, x, indent, width)) {
        AlignedRows(t, n, x, indent, width);
      }
    } else if width - x >= 2 && width - indent >= 2 {
      assert !ReadInside(t, |t|, x, indent, width) by {
        if RawStart(t, |t|, x, indent, width).Some? {
          CutRemains(t, |t|, x, indent, width);
        }
      }
    }
  }

  /** An instance: the first byte of a two-byte character, alone. */
  lemma CutCharacter(x: int, indent: int, width: int)
    ensures RawStart([0xC3], 1, x, indent, width) == None
  {
  }

  // --- Counting and drawing rows -----------------------------------------------------------

  /** Text is left when row `n` begins. */
  predicate Starts(t: bytes, n: nat, x: int, indent: int, width: int)
    requires Aligned(t, 0)
  {
    RowStart(t, n, x, indent, width) < |t|
  }

  /** The first row, from `n` on, that begins at the end of the text: the number of rows. */
  ghost function RowCount(t: bytes, n: nat, x: int, indent: int, width: int): (k: nat)
    requires Aligned(t, 0) && Wraps(t, x, indent, width) && n <= |t| + 1
    ensures k >= n && Ended(t, k, x, indent, width)
    ensures forall m: nat | n <= m < k :: Starts(t, m, x, indent, width)
    decreases |t| + 1 - n
  {
    if Ended(t, n, x, indent, width) then n
    else
      Advances(t, n, x, indent, width);
      RowCount(t, n + 1, x, indent, width)
  }

  lemma RowCountIs(t: bytes, n: nat, m: nat, x: int, indent: int, width: int)
    requires Aligned(t, 0) && Wraps(t, x, indent, width) && n <= m
    requires Ended(t, m, x, indent, width) && forall i: nat | i < m :: Starts(t, i, x, indent, width)
    ensures n <= |t| + 1 && RowCount(t, n, x, indent, width) == m
    decreases m - n
  {
    hide RowStart, Aligned, Wraps;
    if n > 0 {
      Advances(t, n - 1, x, indent, width);
      assert Starts(t, n - 1, x, indent, width);
    }
    assert n < m ==> Starts(t, n, x, indent, width);
    if n < m {
      RowCountIs(t, n + 1, m, x, indent, width);
    }
  }

  /** count_rows: the number of rows that begin before the end of the text, but at least one. */
  method CountRows(t: bytes, x: int, indent: int, width: int) returns (rows: nat)
    requires Aligned(t, 0) && Wraps(t, x, indent, width)
    ensures rows == if t == [] then 1 else RowCount(t, 0, x, indent, width)
  {
    hide Wrap, Stuck, Aligned, Wraps;
    rows := 0;
    var p, col := 0, x;
    while p < |t|
      invariant p == RowStart(t, rows, x, indent, width) && Avail(col, width) == RowAvail(rows, x, indent, width)
      invariant forall n: nat | n < rows :: Starts(t, n, x, indent, width)
      invariant t == [] ==> rows == 0
      decreases |t| - p, if rows == 0 then 1 else 0
    {
      var end, next := WrapLineEnd(t, p, col, width);
      RowMoves(t, rows, x, indent, width);
      p := next;
      rows := rows + 1;
      col := indent;
    }
    RowCountIs(t, 0, rows, x, indent, width);
    return if rows > 0 then rows else 1;
  }

  lemma RowMoves(t: bytes, n: nat, x: int, indent: int, width: int)
    requires Aligned(t, 0) && Wraps(t, x, indent, width) && Starts(t, n, x, indent, width)
    ensures RowStart(t, n + 1, x, indent, width) >= RowStart(t, n, x, indent, width)
    ensures n > 0 ==> RowStart(t, n + 1, x, indent, width) > RowStart(t, n, x, indent, width)
  {
    hide Wrap, Stuck, Aligned;
    var p, avail := RowStart(t, n, x, indent, width), RowAvail(n, x, indent, width);
    if n > 0 {
      NotStuck(t, n, x, indent, width);
    }
    ProgressExactly(t, p, avail);
    RowIsSound(t, p, avail);
  }

  /** Something on the screen. */
  datatype Drawn = Drawn(y: int, x: int, text: bytes)

  predicate IsContinuation(b: byte) {
    0x80 <= b < 0xC0
  }

  const SEGMENT: nat := 4096

  /** Back from a length that ends within a character. */
  function Cut(t: bytes, p: nat, len: nat): (n: nat)
    requires p + len <= |t|
    ensures n <= len
    ensures n == 0 || p + n == |t| || !IsContinuation(t[p + n])
  {
    if len > 0 && p + len < |t| && IsContinuation(t[p + len]) then Cut(t, p, len - 1) else len
  }

  /** What is drawn of the row from `p` to `end`. */
  function Segment(t: bytes, p: nat, end: nat): bytes
    requires p <= end <= |t|
  {
    t[p..p + Cut(t, p, if end - p >= SEGMENT then SEGMENT - 1 else end - p)]
  }

  /** The first `n` rows on a screen, from line `y` on; rows with nothing in them are not drawn. */
  function Screen(t: bytes, n: nat, y: int, x: int, indent: int, width: int): seq<Drawn>
    requires Aligned(t, 0)
  {
    if n == 0 then []
    else
      var p := RowStart(t, n - 1, x, indent, width);
      RowIsSound(t, p, RowAvail(n - 1, x, indent, width));
      var seg := Segment(t, p, Wrap(t, p, RowAvail(n - 1, x, indent, width)).0);
      Screen(t, n - 1, y, x, indent, width)
      + (if seg != [] then [Drawn(y + n - 1, if n == 1 then x else indent, seg)] else [])
  }

  predicate ContinuesAt(t: bytes, q: nat) {
    q < |t| && IsContinuation(t[q])
  }

  /** `m` bytes are copied of the row from `p` to `end`: all, but for the buffer's size and stray continuation bytes. */
  predicate Copied(t: bytes, p: nat, end: nat, m: nat)
    requires p <= end <= |t|
  {
    && m <= end - p && m < SEGMENT
    && (m == 0 || p + m == |t| || !IsContinuation(t[p + m]))
    && forall q | p + m < q <= end && q < p + SEGMENT :: ContinuesAt(t, q)
  }

  /** On this line there is this text in this column, and nothing else; or nothing, for an empty text. */
  ghost predicate LineShows(screen: seq<Drawn>, y: int, x: int, text: bytes) {
    if text == [] then forall d | d in screen :: d.y != y
    else exists i ::
      && 0 <= i < |screen| && screen[i] == Drawn(y, x, text)
      && forall j | 0 <= j < |screen| && j != i :: screen[j].y != y
  }

  ghost predicate PartShown(screen: seq<Drawn>, t: bytes, p: nat, end: nat, y: int, x: int)
    requires p <= end <= |t|
  {
    exists m: nat :: Copied(t, p, end, m) && LineShows(screen, y, x, t[p..p + m])
  }

  /** Row `n` stands on its line, in its column, with the bytes of the text it was given. */
  ghost predicate RowShown(screen: seq<Drawn>, t: bytes, n: nat, y: int, x: int, indent: int, width: int)
    requires Aligned(t, 0)
  {
    var p := RowStart(t, n, x, indent, width);
    RowIsSound(t, p, RowAvail(n, x, indent, width));
    var end := Wrap(t, p, RowAvail(n, x, indent, width)).0;
    PartShown(screen, t, p, end, y + n, if n == 0 then x else indent)
  }

  /** From top to bottom, on lines from `y` on and above `end`. */
  predicate Downwards(screen: seq<Drawn>, y: int, end: int) {
    && (forall i | 0 <= i < |screen| :: y <= screen[i].y < end)
    && (forall i, j | 0 <= i < j < |screen| :: screen[i].y < screen[j].y)
  }

  lemma {:induction false} CutIsCopied(t: bytes, p: nat, end: nat, len: nat)
    requires p <= end <= |t| && len <= end - p && len < SEGMENT
    requires forall q | p + len < q <= end && q < p + SEGMENT :: ContinuesAt(t, q)
    ensures Copied(t, p, end, Cut(t, p, len))
    decreases len
  {
    if len > 0 && p + len < |t| && IsContinuation(t[p + len]) {
      CutIsCopied(t, p, end, len - 1);
    }
  }

  /** One more line below. */
  lemma LineAdded(screen: seq<Drawn>, y: int, n: nat, x: int, text: bytes)
    requires Downwards(screen, y, y + n)
    ensures var more := screen + (if text != [] then [Drawn(y + n, x, text)] else []);
      Downwards(more, y, y + n + 1) && LineShows(more, y + n, x, text)
  {
    var more := screen + (if text != [] then [Drawn(y + n, x, text)] else []);
    if text != [] {
      assert more[|screen|] == Drawn(y + n, x, text);
    }
  }

  /** The lines above stay as they are. */
  lemma LineStays(screen: seq<Drawn>, more: seq<Drawn>, y: int, x: int, text: bytes)
    requires LineShows(screen, y, x, text) && forall d | d in more :: d.y != y
    ensures LineShows(screen + more, y, x, text)
  {
    if text != [] {
      var i :| 0 <= i < |screen| && screen[i] == Drawn(y, x, text)
               && forall j | 0 <= j < |screen| && j != i :: screen[j].y != y;
      assert (screen + more)[i] == Drawn(y, x, text);
    }
  }

  lemma RowStays(screen: seq<Drawn>, more: seq<Drawn>, t: bytes, n: nat, y: int, x: int, indent: int, width: int)
    requires Aligned(t, 0) && RowShown(screen, t, n, y, x, indent, width) && forall d | d in more :: d.y != y + n
    ensures RowShown(screen + more, t, n, y, x, indent, width)
  {
    hide Wrap, Aligned, PartShown;
    var p := RowStart(t, n, x, indent, width);
    RowIsSound(t, p, RowAvail(n, x, indent, width));
    var end := Wrap(t, p, RowAvail(n, x, indent, width)).0;
    PartStays(screen, more, t, p, end, y + n, if n == 0 then x else indent);
  }

  lemma PartStays(screen: seq<Drawn>, more: seq<Drawn>, t: bytes, p: nat, end: nat, y: int, x: int)
    requires p <= end <= |t| && PartShown(screen, t, p, end, y, x) && forall d | d in more :: d.y != y
    ensures PartShown(screen + more, t, p, end, y, x)
  {
    hide LineShows;
    var m: nat :| Copied(t, p, end, m) && LineShows(screen, y, x, t[p..p + m]);
    LineStays(screen, more, y, x, t[p..p + m]);
  }

  lemma LastRowShown(screen: seq<Drawn>, t: bytes, n: nat, y: int, x: int, indent: int, width: int)
    requires Aligned(t, 0) && n > 0 && screen == Screen(t, n - 1, y, x, indent, width)
    requires Downwards(screen, y, y + n - 1)
    ensures Downwards(Screen(t, n, y, x, indent, width), y, y + n)
    ensures RowShown(Screen(t, n, y, x, indent, width), t, n - 1, y, x, indent, width)
    ensures exists more ::
              Screen(t, n, y, x, indent, width) == screen + more && forall d | d in more :: d.y == y + n - 1
  {
    hide Wrap, Aligned, Segment, PartShown, Downwards;
    var p, avail := RowStart(t, n - 1, x, indent, width), RowAvail(n - 1, x, indent, width);
    RowIsSound(t, p, avail);
    var end := Wrap(t, p, avail).0;
    var text := Segment(t, p, end);
    var more := if text != [] then [Drawn(y + n - 1, if n == 1 then x else indent, text)] else [];
    SegmentShown(screen, t, p, end, y, n - 1, if n == 1 then x else indent);
    assert Screen(t, n, y, x, indent, width) == screen + more;
  }

  lemma SegmentShown(screen: seq<Drawn>, t: bytes, p: nat, end: nat, y: int, n: nat, x: int)
    requires p <= end <= |t| && Downwards(screen, y, y + n)
    ensures var text := Segment(t, p, end);
      var more := screen + (if text != [] then [Drawn(y + n, x, text)] else []);
      Downwards(more, y, y + n + 1) && PartShown(more, t, p, end, y + n, x)
  {
    hide Cut, LineShows, Downwards, Copied;
    CutIsCopied(t, p, end, if end - p >= SEGMENT then SEGMENT - 1 else end - p);
    LineAdded(screen, y, n, x, Segment(t, p, end));
  }

  /**
    * What is drawn goes down the window, line after line; every row that has something in it stands on its
    * own line, `y` lines down and one for each row before it, and nothing else is drawn.
    */
  lemma {:induction false} RowsAreShown(t: bytes, n: nat, y: int, x: int, indent: int, width: int)
    requires Aligned(t, 0)
    ensures Downwards(Screen(t, n, y, x, indent, width), y, y + n)
    ensures forall k: nat | k < n :: RowShown(Screen(t, n, y, x, indent, width), t, k, y, x, indent, width)
  {
    hide Aligned, Downwards, RowShown, Screen;
    if n == 0 {
      NothingShown(t, y, x, indent, width);
    } else {
      RowsAreShown(t, n - 1, y, x, indent, width);
      var before, screen := Screen(t, n - 1, y, x, indent, width), Screen(t, n, y, x, indent, width);
      LastRowShown(before, t, n, y, x, indent, width);
      var more: seq<Drawn> :| screen == before + more && forall d | d in more :: d.y == y + n - 1;
      forall r: nat | r < n - 1 ensures RowShown(screen, t, r, y, x, indent, width) {
        RowStays(before, more, t, r, y, x, indent, width);
      }
    }
  }

  lemma NothingShown(t: bytes, y: int, x: int, indent: int, width: int)
    requires Aligned(t, 0)
    ensures Downwards(Screen(t, 0, y, x, indent, width), y, y)
  {
  }

  /** A row of less than 4096 bytes that does not end before a continuation byte is copied whole. */
  lemma CopiedWhole(t: bytes, p: nat, end: nat, m: nat)
    requires p <= end <= |t| && Copied(t, p, end, m)
    requires end - p < SEGMENT && !ContinuesAt(t, end)
    ensures m == end - p
  {
  }

  /**
    * The row loop of render_wrapped, on a window of `maxY` lines. It ends on every text: at the end of
    * the text or at the last line.
    */
  method RenderWrapped(t: bytes, y: int, x: int, indent: int, width: int, maxY: int)
    returns (rows: nat, screen: seq<Drawn>)
    requires Aligned(t, 0)
    ensures t == [] || y >= maxY ==> rows == 1 && screen == []
    ensures t != [] && y < maxY ==> screen == Screen(t, rows, y, x, indent, width)
    ensures t != [] && y < maxY ==> forall n: nat | n < rows :: Starts(t, n, x, indent, width)
    ensures t != [] && y < maxY ==> rows == maxY - y || (rows < maxY - y && Ended(t, rows, x, indent, width))
    ensures t != [] && y < maxY ==> Downwards(screen, y, maxY)
    ensures t != [] && y < maxY ==> forall n: nat | n < rows :: RowShown(screen, t, n, y, x, indent, width)
    ensures t != [] && y < maxY && Wraps(t, x, indent, width) ==>
      rows == Lesser(RowCount(t, 0, x, indent, width), maxY - y)
  {
    hide Wrap, Stuck, Aligned, Segment, Wraps, RowShown;
    rows := 0;
    screen := [];
    var p, line, col := 0, y, x;
    while p < |t| && line < maxY
      invariant p == RowStart(t, rows, x, indent, width) && Avail(col, width) == RowAvail(rows, x, indent, width)
      invariant col == (if rows == 0 then x else indent) && line == y + rows && (rows > 0 ==> line <= maxY && t != [])
      invariant forall n: nat | n < rows :: Starts(t, n, x, indent, width)
      invariant screen == Screen(t, rows, y, x, indent, width)
      decreases maxY - line
    {
      var end, next := WrapLineEnd(t, p, col, width);
      RowIsSound(t, p, Avail(col, width));
      var seg := CopySegment(t, p, end);
      if seg != [] {
        screen := screen + [Drawn(line, col, seg)];
      }
      p := next;
      line := line + 1;
      rows := rows + 1;
      col := indent;
    }
    if Wraps(t, x, indent, width) {
      if p == |t| {
        RowCountIs(t, 0, rows, x, indent, width);
      } else if rows > 0 {
        RowCountBeyond(t, rows, x, indent, width);
      }
    }
    RowsAreShown(t, rows, y, x, indent, width);
    return if rows > 0 then rows else 1, screen;
  }

  /** The copy into the segment buffer. */
  method CopySegment(t: bytes, p: nat, end: nat) returns (seg: bytes)
    requires p <= end <= |t|
    ensures seg == Segment(t, p, end)
  {
    var len: int := end - p;
    if len >= SEGMENT {
      len := SEGMENT - 1;
    }
    ghost var most := len;
    while len > 0 && p + len < |t| && IsContinuation(t[p + len])
      invariant 0 <= len <= most && Cut(t, p, len) == Cut(t, p, most)
    {
      len := len - 1;
    }
    return t[p..p + len];
  }

  function Lesser(a: int, b: int): int {
    if a < b then a else b
  }

  lemma RowCountBeyond(t: bytes, n: nat, x: int, indent: int, width: int)
    requires Aligned(t, 0) && Wraps(t, x, indent, width)
    requires Starts(t, n, x, indent, width) && forall m: nat | m < n :: Starts(t, m, x, indent, width)
    ensures RowCount(t, 0, x, indent, width) > n
  {
    var k := RowCount(t, 0, x, indent, width);
    assert k <= n ==> Starts(t, k, x, indent, width);
  }

  // --- Proper UTF-8 ------------------------------------------------------------------------

  /** Every lead byte is followed by as many continuation bytes as it announces. */
  predicate Proper(t: bytes, p: nat)
    decreases |t| - p
  {
    p == |t|
    || (&& Whole(t, p) && !IsContinuation(t[p])
        && (forall k | p < k < Next(t, p) :: IsContinuation(t[k]))
        && Proper(t, Next(t, p)))
  }

  lemma {:induction false} ContinuationExactly(t: bytes, p: nat, i: nat)
    requires Proper(t, p) && p <= i <= |t|
    ensures Boundary(t, p, i) <==> i == |t| || !IsContinuation(t[i])
    decreases |t| - p
  {
    if p < i {
      if i < Next(t, p) {
        if Boundary(t, Next(t, p), i) {
          BoundaryAbove(t, Next(t, p), i);
        }
      } else {
        ContinuationExactly(t, Next(t, p), i);
      }
    }
  }

  /** In proper text, a row of less than 4096 bytes is drawn whole, and a longer one up to a character boundary. */
  lemma DrawnToBoundary(t: bytes, p: nat, avail: nat)
    requires Aligned(t, p) && Proper(t, p)
    ensures var end := Wrap(t, p, avail).0;
      && p <= end <= |t|
      && (end - p < SEGMENT ==> Segment(t, p, end) == t[p..end])
      && Segment(t, p, end) <= t[p..end]
      && Boundary(t, p, p + |Segment(t, p, end)|)
  {
    hide Wrap, Columns, Aligned, Boundary, Proper, Remembers;
    NothingRemembered(t, p);
    RowIsSound(t, p, avail);
    var end := Wrap(t, p, avail).0;
    ContinuationExactly(t, p, end);
    var n := |Segment(t, p, end)|;
    ContinuationExactly(t, p, p + n);
  }
}
