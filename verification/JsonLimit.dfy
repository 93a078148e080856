/** The nesting limit is the only thing that keeps a document of the grammar from being parsed. */
module JsonLimit {
  import opened Bytes
  import opened JsonValue
  import opened JsonStringSpec
  import opened JsonParseSpec
  import opened JsonGrammar
  import opened JsonCompleteness
  import opened JsonPrintSpec
  import opened JsonRoundTrip

  // --- A larger limit changes no success -----------------------------------------------

  lemma {:induction false} ValueShallower(s: bytes, i: nat, depth: int, k: nat)
    requires i <= |s| && ValueAt(s, i, depth).Done?
    ensures ValueAt(s, i, depth - k) == ValueAt(s, i, depth)
    decreases |s| - i, 0
  {
    hide LiteralAt, StrToD, At, ElementsAt, MembersAt, RunEnd;
    if i < |s| && s[i] == LBRACKET && ElementsAt(s, i + 1, depth + 1).Done? {
      ElementsShallower(s, i + 1, depth + 1, k);
    } else if i < |s| && s[i] == LBRACE && MembersAt(s, i + 1, depth + 1).Done? {
      MembersShallower(s, i + 1, depth + 1, k);
    }
  }

  lemma {:induction false} ElementsShallower(s: bytes, i: nat, depth: int, k: nat)
    requires i <= |s| && ElementsAt(s, i, depth).Done?
    ensures ElementsAt(s, i, depth - k) == ElementsAt(s, i, depth)
    decreases |s| - i, 1
  {
    hide ValueAt;
    ValueShallower(s, SkipBlanks(s, i), depth, k);
    var q := SkipBlanks(s, ValueAt(s, SkipBlanks(s, i), depth).next);
    if s[q] == COMMA {
      ElementsShallower(s, q + 1, depth, k);
    }
  }

  lemma {:induction false} MembersShallower(s: bytes, i: nat, depth: int, k: nat)
    requires i <= |s| && MembersAt(s, i, depth).Done?
    ensures MembersAt(s, i, depth - k) == MembersAt(s, i, depth)
    decreases |s| - i, 1
  {
    hide MemberAt;
    MemberShallower(s, i, depth, k);
    var q := SkipBlanks(s, MemberAt(s, i, depth).next);
    if s[q] == COMMA {
      MembersShallower(s, q + 1, depth, k);
    }
  }

  lemma {:induction false} MemberShallower(s: bytes, i: nat, depth: int, k: nat)
    requires i <= |s| && MemberAt(s, i, depth).Done?
    ensures MemberAt(s, i, depth - k) == MemberAt(s, i, depth)
    decreases |s| - i, 0
  {
    hide ValueAt, LiteralAt;
    var key := LiteralAt(s, SkipBlanks(s, i));
    var c := SkipBlanks(s, key.value.1);
    ValueShallower(s, SkipBlanks(s, c + 1), depth, k);
  }

  // --- Depth of a text, nesting of its value ---------------------------------------------

  lemma {:induction false} DepthIsNesting(c: Cst)
    requires Valid(c)
    ensures Nesting(Denotes(c)) == Depth(c)
    decreases c, 0
  {
    match c
    case CArray(elems) => ElemsDepthIsNesting(elems);
    case CObject(mems) => MemsDepthIsNesting(mems);
    case _ =>
  }

  lemma {:induction false} ElemsDepthIsNesting(e: Elems)
    requires ValidElems(e)
    ensures ItemsNesting(ElemsDenote(e)) == ElemsDepth(e)
    decreases e, 1
  {
    DepthIsNesting(e.v);
    if e.MoreElems? {
      ElemsDepthIsNesting(e.rest);
    }
    assert ElemsDenote(e)[1..] == if e.MoreElems? then ElemsDenote(e.rest) else [];
  }

  lemma {:induction false} MemsDepthIsNesting(ms: Mems)
    requires ValidMems(ms)
    ensures MembersNesting(MemsDenote(ms)) == MemsDepth(ms)
    decreases ms, 1
  {
    DepthIsNesting(ms.m.v);
    if ms.MoreMems? {
      MemsDepthIsNesting(ms.rest);
    }
    assert MemsDenote(ms)[1..] == if ms.MoreMems? then MemsDenote(ms.rest) else [];
  }

  /** A document of RFC 8259 is parsed to what it denotes if it is nested at most 1000 deep, and else refused. */
  lemma DocumentParsedExactly(d: Document, requireNul: bool)
    requires ValidDocument(d)
    ensures ParseBuffer(Flatten(DocumentText(d)) + [0], requireNul)
         == if Depth(d.c) <= NESTING_LIMIT then Some(Denotes(d.c)) else None
  {
    hide Spells, Text, DocumentText, ValueAt, Nesting, Denotes, Depth;
    if Depth(d.c) <= NESTING_LIMIT {
      DocumentParsed(d, requireNul);
    } else {
      var s, i := Flatten(DocumentText(d)) + [0], |d.before|;
      DocumentSpelled(d);
      assert AfterBom(s) == 0 by { assert 4 < |s| ==> s[..3][0] == s[0]; }
      if ValueAt(s, i, 0).Done? {
        assert d.c.CNumber? ==> NumberEnds(s, i + Size(Text(d.c)));
        ValueParsed(s, i, NESTING_LIMIT - Depth(d.c), d.c);
        ValueShallower(s, i, 0, Depth(d.c) - NESTING_LIMIT);
        ParsedNesting(s, i, 0);
        DepthIsNesting(d.c);
      }
    }
  }

  // --- An instance -------------------------------------------------------------------------

  /** An array in an array, `n` deep. */
  function Deep(n: nat): Value {
    if n == 0 then Null else Array([Deep(n - 1)])
  }

  lemma {:induction false} DeepNesting(n: nat, fp: Format)
    ensures Nesting(Deep(n)) == n && Readable(Deep(n), fp) && CStrings(Deep(n))
  {
    if n > 0 {
      DeepNesting(n - 1, fp);
      assert [Deep(n - 1)][1..] == [];
      assert ItemsNesting([]) == 0;
      assert ItemsNesting([Deep(n - 1)]) == n - 1;
    }
  }

  /** 1001 arrays in one another do not come back from their text, 1000 do. */
  lemma TooDeepIsLost(format: bool, requireNul: bool, fp: Format)
    ensures ParseBuffer(Print(Seen(Deep(1000)), format, 0, fp) + [0], requireNul) == Some(Deep(1000))
    ensures ParseBuffer(Print(Seen(Deep(1001)), format, 0, fp) + [0], requireNul) != Some(Deep(1001))
  {
    hide Print, ParseBuffer, Deep, Seen;
    DeepNesting(1000, fp);
    DeepNesting(1001, fp);
    RoundTripExactly(Deep(1000), format, requireNul, fp);
    RoundTripExactly(Deep(1001), format, requireNul, fp);
  }
}
