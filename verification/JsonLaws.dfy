/** What the printer accepts, in terms of the tree; and what it prints is always read back. */
module JsonLaws {
  import opened Bytes
  import opened JsonValue
  import opened JsonParseSpec
  import opened JsonPrintSpec
  import opened JsonPrinter
  import opened JsonRoundTrip

  /** Every number's text fits number_buffer. */
  predicate NumbersFit(v: Value, fp: Format)
    decreases v, 1
  {
    match v
    case Number(d) => |NumberText(d, fp)| <= NUMBER_MAX
    case Array(items) => ItemNumbersFit(items, fp)
    case Object(members) => MemberNumbersFit(members, fp)
    case _ => true
  }

  predicate ItemNumbersFit(items: seq<Value>, fp: Format)
    decreases items, 0
  {
    items == [] || (NumbersFit(items[0], fp) && ItemNumbersFit(items[1..], fp))
  }

  predicate MemberNumbersFit(members: seq<Member>, fp: Format)
    decreases members, 0
  {
    members == [] || (NumbersFit(members[0].value, fp) && MemberNumbersFit(members[1..], fp))
  }

  /** The printer's own checks amount to the nesting limit, the same one the parser has. */
  lemma {:induction false} PrintableExactly(v: Value, depth: nat, fp: Format)
    requires depth <= NESTING_LIMIT
    ensures Printable(v, depth, fp) <==> depth + Nesting(v) <= NESTING_LIMIT && NumbersFit(v, fp)
    decreases v, 1
  {
    match v
    case Array(items) => if depth < NESTING_LIMIT { PrintableItemsExactly(items, depth + 1, fp); }
    case Object(members) => if depth < NESTING_LIMIT { PrintableMembersExactly(members, depth + 1, fp); }
    case _ =>
  }

  lemma {:induction false} PrintableItemsExactly(items: seq<Value>, depth: nat, fp: Format)
    requires depth <= NESTING_LIMIT
    ensures PrintableItems(items, depth, fp)
       <==> depth + ItemsNesting(items) <= NESTING_LIMIT && ItemNumbersFit(items, fp)
    decreases items, 0
  {
    if items != [] {
      PrintableExactly(items[0], depth, fp);
      PrintableItemsExactly(items[1..], depth, fp);
    }
  }

  lemma {:induction false} PrintableMembersExactly(members: seq<Member>, depth: nat, fp: Format)
    requires depth <= NESTING_LIMIT
    ensures PrintableMembers(members, depth, fp)
       <==> depth + MembersNesting(members) <= NESTING_LIMIT && MemberNumbersFit(members, fp)
    decreases members, 0
  {
    if members != [] {
      PrintableExactly(members[0].value, depth, fp);
      PrintableMembersExactly(members[1..], depth, fp);
    }
  }

  function Power(k: nat): (p: nat)
    ensures p > 0
  {
    if k == 0 then 1 else 10 * Power(k - 1)
  }

  lemma {:induction false} NatTextShort(n: nat, k: nat)
    requires k > 0 && n < Power(k)
    ensures |NatText(n)| <= k
    decreases k
  {
    if n >= 10 {
      assert Power(1) == 10 * Power(0) == 10;
      NatTextShort(n / 10, k - 1);
    }
  }

  /** A 32-bit integer always fits: at most ten digits and a sign. */
  lemma IntFits(d: real, fp: Format)
    requires IsInt32(d)
    ensures |NumberText(d, fp)| <= 11
  {
    assert Power(1) == 10 * Power(0);
    assert Power(2) == 10 * Power(1);
    assert Power(3) == 10 * Power(2);
    assert Power(4) == 10 * Power(3);
    assert Power(5) == 10 * Power(4);
    assert Power(6) == 10 * Power(5);
    assert Power(7) == 10 * Power(6);
    assert Power(8) == 10 * Power(7);
    assert Power(9) == 10 * Power(8);
    assert Power(10) == 10 * Power(9) == 10000000000;
    NatTextShort(if d.Floor < 0 then -d.Floor else d.Floor, 10);
  }

  /** Whatever the printer prints, the parser reads back: what the printer saw, and all of a tree of C strings. */
  lemma PrintedIsReadBack(v: Value, format: bool, requireNul: bool, fp: Format)
    requires Readable(v, fp) && Printable(v, 0, fp)
    ensures var back := ParseBuffer(Print(Seen(v), format, 0, fp) + [0], requireNul);
      back == Some(Seen(v)) && (back == Some(v) <==> CStrings(v))
  {
    hide Print, ParseBuffer, Seen, CStrings, Readable;
    PrintableExactly(v, 0, fp);
    RoundTripExactly(v, format, requireNul, fp);
  }

  /**
    * Whatever was parsed, from any buffer, can be printed again if its numbers fit. Parsing that text gives
    * what the printer saw of it: all of it exactly if no string holds a byte 0.
    */
  lemma ParsedSurvives(s: bytes, requireNul: bool, format: bool, fp: Format)
    requires ParseBuffer(s, requireNul).Some? && Readable(ParseBuffer(s, requireNul).value, fp)
    ensures var v := ParseBuffer(s, requireNul).value;
      var back := ParseBuffer(Print(Seen(v), format, 0, fp) + [0], requireNul);
      && back == Some(Seen(v)) && (back == Some(v) <==> CStrings(v))
      && (NumbersFit(v, fp) <==> Printable(v, 0, fp))
  {
    hide Print, ValueAt, Nesting, NumbersFit, Printable, Seen, CStrings, Readable;
    var v := ParseBuffer(s, requireNul).value;
    ParsedNesting(s, SkipBlanks(s, AfterBom(s)), 0);
    PrintableExactly(v, 0, fp);
    RoundTripExactly(v, format, requireNul, fp);
  }

  /** The literal "\u0000" is parsed to a byte 0, which is printed as "" and comes back as nothing. */
  lemma NulIsLost(format: bool, requireNul: bool, fp: Format)
    ensures ParseBuffer([QUOTE, BACKSLASH, 117, 48, 48, 48, 48, QUOTE, 0], requireNul) == Some(String([0]))
    ensures Print(Seen(String([0])), format, 0, fp) == [QUOTE, QUOTE]
    ensures ParseBuffer([QUOTE, QUOTE, 0], requireNul) == Some(String([]))
  {
    hide ParseBuffer;
    assert [0][1..] == [] && Escaped([0]) == EscapedByte(0) + [];
    assert Print(String([0]), format, 0, fp) + [0] == [QUOTE, BACKSLASH, 117, 48, 48, 48, 48, QUOTE, 0];
    RoundTrip(String([0]), format, requireNul, fp);
    assert Print(String([]), format, 0, fp) + [0] == [QUOTE, QUOTE, 0];
    RoundTrip(String([]), format, requireNul, fp);
  }
}
