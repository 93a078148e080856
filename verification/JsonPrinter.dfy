/**
  * The printer of src/core/cJSON.c as it runs: a block of memory that is reallocated as the text
  * grows, texts written behind an offset that lags and is caught up by strlen. It refines the pure
  * printing function, and it is proved exactly when it succeeds.
  */
module JsonPrinter {
  import opened Bytes
  import opened JsonValue
  import opened JsonParseSpec
  import opened JsonPrintSpec

  /** printf prints numerals. */
  ghost predicate GoodFormat(fp: Format) {
    forall d: real :: ValidNumeral(fp(d))
  }

  /** Size of number_buffer, less the terminator. */
  const NUMBER_MAX := 25

  /** What the printer refuses whatever the room: numbers too long for its buffer, nesting too deep. */
  predicate Printable(v: Value, depth: nat, fp: Format)
    decreases v, 1
  {
    match v
    case Number(d) => |NumberText(d, fp)| <= NUMBER_MAX
    case Array(items) => depth < NESTING_LIMIT && PrintableItems(items, depth + 1, fp)
    case Object(members) => depth < NESTING_LIMIT && PrintableMembers(members, depth + 1, fp)
    case _ => true
  }

  predicate PrintableItems(items: seq<Value>, depth: nat, fp: Format)
    decreases items, 0
  {
    items == [] || (Printable(items[0], depth, fp) && PrintableItems(items[1..], depth, fp))
  }

  predicate PrintableMembers(members: seq<Member>, depth: nat, fp: Format)
    decreases members, 0
  {
    members == [] || (Printable(members[0].value, depth, fp) && PrintableMembers(members[1..], depth, fp))
  }

  /** The printer's refusals do not depend on strings. */
  lemma {:induction false} SeenPrintable(v: Value, depth: nat, fp: Format)
    ensures Printable(Seen(v), depth, fp) == Printable(v, depth, fp)
    decreases v, 1
  {
    match v
    case Array(items) => SeenItemsPrintable(items, depth + 1, fp);
    case Object(members) => SeenMembersPrintable(members, depth + 1, fp);
    case _ =>
  }

  lemma {:induction false} SeenItemsPrintable(items: seq<Value>, depth: nat, fp: Format)
    ensures PrintableItems(SeenItems(items), depth, fp) == PrintableItems(items, depth, fp)
    decreases items, 0
  {
    if items != [] {
      SeenPrintable(items[0], depth, fp);
      SeenItemsPrintable(items[1..], depth, fp);
      assert SeenItems(items)[1..] == SeenItems(items[1..]);
    }
  }

  lemma {:induction false} SeenMembersPrintable(members: seq<Member>, depth: nat, fp: Format)
    ensures PrintableMembers(SeenMembers(members), depth, fp) == PrintableMembers(members, depth, fp)
    decreases members, 0
  {
    if members != [] {
      SeenPrintable(members[0].value, depth, fp);
      SeenMembersPrintable(members[1..], depth, fp);
      assert SeenMembers(members)[1..] == SeenMembers(members[1..]);
    }
  }

  // --- Writing through an output pointer ---------------------------------------------

  /** memcpy of `t` to `out` at `at`. */
  method Store(out: array<byte>, at: nat, t: bytes)
    requires at + |t| <= out.Length
    modifies out
    ensures out[..at + |t|] == old(out[..at]) + t
    ensures out[at + |t|..] == old(out[at + |t|..])
  {
    forall k | 0 <= k < |t| {
      out[at + k] := t[k];
    }
  }

  /** The copy loop of print_number, with its terminator. */
  method StoreNumber(out: array<byte>, at: nat, numberBuffer: bytes)
    requires at + |numberBuffer| < out.Length
    modifies out
    ensures out[..at + |numberBuffer|] == old(out[..at]) + numberBuffer
    ensures out[at + |numberBuffer|] == 0
  {
    ghost var base := out[..at];
    var i := 0;
    while i < |numberBuffer|
      invariant i <= |numberBuffer|
      invariant out[..at + i] == base + numberBuffer[..i]
    {
      ghost var before := out[..at + i];
      // the decimal point of the C locale is '.'
      out[at + i] := if numberBuffer[i] == DOT then DOT else numberBuffer[i];
      assert out[..at + i + 1] == before + [numberBuffer[i]];
      assert numberBuffer[..i + 1] == numberBuffer[..i] + [numberBuffer[i]];
      assert (base + numberBuffer[..i]) + [numberBuffer[i]] == base + (numberBuffer[..i] + [numberBuffer[i]]);
      i := i + 1;
    }
    assert numberBuffer[..i] == numberBuffer;
    out[at + i] := 0;
  }

  /** The first loop of print_string_ptr, up to the first NUL. */
  method CountEscapes(input: bytes) returns (length: nat, escapeCharacters: nat)
    ensures length == |CString(input)|
    ensures |Escaped(CString(input))| == length + escapeCharacters
  {
    hide CString;
    ghost var seen := CString(input);
    escapeCharacters := 0;
    var i := 0;
    while i < |input| && input[i] != 0
      invariant i <= |seen|
      invariant |Escaped(seen)| == i + escapeCharacters + |Escaped(seen[i..])|
    {
      assert seen[i..][1..] == seen[i + 1..];
      var c := input[i];
      if c == QUOTE || c == BACKSLASH || c == 8 || c == 12 || c == LF || c == CR || c == TAB {
        escapeCharacters := escapeCharacters + 1;
      } else if c < 32 {
        escapeCharacters := escapeCharacters + 5;
      }
      i := i + 1;
    }
    return i, escapeCharacters;
  }

  lemma {:induction false} NothingEscaped(input: bytes)
    requires |Escaped(input)| == |input|
    ensures Escaped(input) == input
    decreases |input|
  {
    if input != [] {
      LongEnough(input[1..]);
      NothingEscaped(input[1..]);
    }
  }

  lemma {:induction false} LongEnough(input: bytes)
    ensures |Escaped(input)| >= |input|
    decreases |input|
  {
    if input != [] {
      LongEnough(input[1..]);
    }
  }

  /**
    * The loop body of print_string_ptr. sprintf of a control character also writes a NUL behind the
    * escape; it falls inside the block and is overwritten by what follows.
    */
  method StoreEscaped(out: array<byte>, o: nat, c: byte) returns (k: nat)
    requires o + |EscapedByte(c)| < out.Length
    modifies out
    ensures k == |EscapedByte(c)| && out[..o + k] == old(out[..o]) + EscapedByte(c)
  {
    ghost var base := out[..o];
    if c > 31 && c != QUOTE && c != BACKSLASH {
      out[o] := c;
      assert out[..o + 1] == base + [c];
      return 1;
    }
    out[o] := BACKSLASH;
    k := 2;
    if c == BACKSLASH {
      out[o + 1] := BACKSLASH;
    } else if c == QUOTE {
      out[o + 1] := QUOTE;
    } else if c == 8 {
      out[o + 1] := 98;
    } else if c == 12 {
      out[o + 1] := 102;
    } else if c == LF {
      out[o + 1] := 110;
    } else if c == CR {
      out[o + 1] := 114;
    } else if c == TAB {
      out[o + 1] := 116;
    } else {
      k := 6;
      out[o + 1], out[o + 2], out[o + 3] := 117, 48, 48;
      out[o + 4], out[o + 5], out[o + 6] := HexChar(c / 16), HexChar(c % 16), 0;
    }
    assert out[..o + k] == base + EscapedByte(c);
  }

  /** The writing part of print_string_ptr, once the room is there. */
  method StoreString(out: array<byte>, at: nat, input: bytes, outputLength: nat, escapeCharacters: nat)
    requires |Escaped(CString(input))| == |CString(input)| + escapeCharacters == outputLength
    requires at + |Quoted(CString(input))| + 1 < out.Length
    modifies out
    ensures out[..at + |Quoted(CString(input))|] == old(out[..at]) + Quoted(CString(input))
    ensures out[at + |Quoted(CString(input))|] == 0
  {
    hide EscapedByte, Escaped, CString;
    ghost var seen, base := CString(input), out[..at];
    if escapeCharacters == 0 {
      NothingEscaped(seen);
      Store(out, at, [QUOTE]);
      Store(out, at + 1, input[..outputLength]);
    } else {
      Store(out, at, [QUOTE]);
      StoreEscapes(out, at + 1, input);
    }
    assert out[..at + outputLength + 1] == (base + [QUOTE]) + Escaped(seen);
    Store(out, at + outputLength + 1, [QUOTE]);
    out[at + outputLength + 2] := 0;
    Enclosed(base, Escaped(seen));
  }

  /** The second loop of print_string_ptr. */
  method StoreEscapes(out: array<byte>, at: nat, input: bytes)
    requires at + |Escaped(CString(input))| < out.Length
    modifies out
    ensures out[..at + |Escaped(CString(input))|] == old(out[..at]) + Escaped(CString(input))
  {
    hide EscapedByte, Escaped, CString;
    ghost var seen, base := CString(input), out[..at];
    var i, o := 0, at;
    ghost var written: bytes := [];
    assert seen[0..] == seen && [] + Escaped(seen) == Escaped(seen);
    while i < |input| && input[i] != 0
      invariant i <= |seen|
      invariant o == at + |written|
      invariant Escaped(seen) == written + Escaped(seen[i..])
      invariant out[..o] == base + written
    {
      ghost var t := EscapedByte(input[i]);
      NextEscaped(seen, i, written);
      var k := StoreEscaped(out, o, input[i]);
      Assoc(base, written, t);
      written := written + t;
      o := o + k;
      i := i + 1;
    }
    NoneEscaped(seen, i, written);
  }

  lemma Enclosed(base: bytes, t: bytes)
    ensures ((base + [QUOTE]) + t) + [QUOTE] == base + ([QUOTE] + (t + [QUOTE]))
  {
  }

  lemma NoneEscaped(input: bytes, i: nat, written: bytes)
    requires i == |input| && Escaped(input) == written + Escaped(input[i..])
    ensures Escaped(input) == written
  {
    assert written + [] == written;
  }

  lemma NextEscaped(input: bytes, i: nat, written: bytes)
    requires i < |input| && Escaped(input) == written + Escaped(input[i..])
    ensures Escaped(input) == (written + EscapedByte(input[i])) + Escaped(input[i + 1..])
    ensures |Escaped(input)| >= |written| + |EscapedByte(input[i])|
  {
    assert input[i..][1..] == input[i + 1..];
  }

  /** A printbuffer. */
  class PrintBuffer {
    var buffer: array<byte>
    var offset: nat
    var depth: nat
    const noalloc: bool
    const format: bool
    const fp: Format

    ghost predicate Valid()
      reads this
    {
      && buffer.Length <= INT_MAX
      && (if buffer.Length == 0 then offset == 0 else offset < buffer.Length)
      && GoodFormat(fp)
    }

    /** The size the block has, or can grow to. */
    function Room(): nat
      reads this
    {
      if noalloc then buffer.Length else INT_MAX
    }

    /** What has been printed up to the offset. */
    ghost function Text(): bytes
      requires Valid()
      reads this, buffer
    {
      buffer[..offset]
    }

    /** `base + t` and a NUL are in the block; the offset has not passed them yet. */
    ghost predicate Pending(base: bytes, t: bytes)
      reads this, buffer
    {
      && |base| <= offset <= |base| + |t| < buffer.Length
      && buffer[..|base| + |t|] == base + t
      && buffer[|base| + |t|] == 0
    }

    constructor (block: array<byte>, noalloc: bool, format: bool, fp: Format)
      requires block.Length <= INT_MAX && GoodFormat(fp)
      ensures Valid() && buffer == block && offset == 0 && depth == 0
      ensures this.noalloc == noalloc && this.format == format && this.fp == fp
    {
      buffer, offset, depth := block, 0, 0;
      this.noalloc, this.format, this.fp := noalloc, format, fp;
    }

    /**
      * ensure: room for `needed` bytes behind the offset and one more. A growing block is doubled, up to
      * INT_MAX, and keeps its contents.
      */
    method Ensure(needed: nat) returns (ok: bool)
      requires Valid() && needed > 0
      modifies this`buffer
      ensures Valid() && (buffer == old(buffer) || (!noalloc && fresh(buffer)))
      ensures ok == (offset + needed + 1 <= old(Room()))
      ensures ok ==> offset + needed + 1 <= buffer.Length
      ensures buffer.Length >= old(buffer.Length)
      ensures ok ==> buffer[..offset] == old(buffer[..offset])
    {
      if buffer.Length > 0 && offset >= buffer.Length {
        return false;
      }
      if needed > INT_MAX {
        return false;
      }
      var total := needed + offset + 1;
      if total <= buffer.Length {
        return true;
      }
      if noalloc {
        return false;
      }
      var size;
      if total > INT_MAX / 2 {
        if total <= INT_MAX {
          size := INT_MAX;
        } else {
          return false;
        }
      } else {
        size := total * 2;
      }
      var block := new byte[size];
      forall k | 0 <= k < buffer.Length {
        block[k] := buffer[k];
      }
      buffer := block;
      return true;
    }

    /** Ask for `needed` bytes, write `t`, advance past it, and put a NUL there if there is one. */
    method Emit(needed: nat, t: bytes, terminate: bool) returns (ok: bool)
      requires Valid() && needed > 0
      requires |t| + (if terminate then 1 else 0) <= needed
      modifies this`buffer, this`offset, buffer
      ensures Valid() && (buffer == old(buffer) || (!noalloc && fresh(buffer)))
      ensures ok == (old(offset) + needed + 1 <= old(Room()))
      ensures ok ==> Text() == old(Text()) + t && offset == old(offset) + |t|
      ensures Room() == old(Room())
    {
      ok := Ensure(needed);
      if !ok {
        return;
      }
      Store(buffer, offset, t);
      offset := offset + |t|;
      if terminate {
        buffer[offset] := 0;
      }
    }

    /** strcpy of a whole text behind the offset, which stays. */
    method Copy(needed: nat, t: bytes) returns (ok: bool)
      requires Valid() && |t| + 1 == needed
      modifies this`buffer, buffer
      ensures Valid() && (buffer == old(buffer) || (!noalloc && fresh(buffer)))
      ensures ok == (offset + |t| + 2 <= old(Room()))
      ensures ok ==> Pending(old(Text()), t)
      ensures Room() == old(Room())
    {
      ok := Ensure(needed);
      if !ok {
        return;
      }
      Store(buffer, offset, t);
      buffer[offset + |t|] := 0;
    }

    /** Copy of the end of a container whose text started behind `base`. */
    method CopyEnd(needed: nat, t: bytes, ghost base: bytes, ghost open: bytes, ghost body: bytes) returns (ok: bool)
      requires Valid() && |t| + 1 == needed && Text() == (base + open) + body
      modifies this`buffer, buffer
      ensures Valid() && (buffer == old(buffer) || (!noalloc && fresh(buffer)))
      ensures ok == (offset + |t| + 2 <= old(Room()))
      ensures ok ==> Pending(base, open + (body + t))
      ensures Room() == old(Room())
    {
      ok := Copy(needed, t);
      Bracketed(base, open, body, t);
    }

    /** update_offset: strlen from the offset. */
    method UpdateOffset(ghost base: bytes, ghost t: bytes)
      requires Valid() && Pending(base, t) && NulFree(t)
      modifies this`offset
      ensures Valid() && Text() == base + t
    {
      ghost var end := |base| + |t|;
      assert forall k | offset <= k < end :: buffer[k] != 0 by {
        forall k | offset <= k < end ensures buffer[k] != 0 {
          assert buffer[..end][k] == t[k - |base|];
        }
      }
      var n := 0;
      while buffer[offset + n] != 0
        invariant offset + n <= end
        decreases end - n
      {
        n := n + 1;
      }
      offset := offset + n;
    }

    /** print_number, from the text printf left in number_buffer. */
    method PrintNumber(d: real) returns (ok: bool)
      requires Valid()
      modifies this`buffer, this`offset, buffer
      ensures Valid() && (buffer == old(buffer) || (!noalloc && fresh(buffer))) && Room() == old(Room())
      ensures ok == (Printable(Number(d), 0, fp) && old(offset) + |NumberText(d, fp)| + 2 <= old(Room()))
      ensures ok ==> Pending(old(Text()), NumberText(d, fp))
    {
      hide NumberText;
      var numberBuffer := NumberText(d, fp);
      var length := |numberBuffer|;
      if length > NUMBER_MAX {
        return false;
      }
      ok := Ensure(length + 1);
      if !ok {
        return;
      }
      StoreNumber(buffer, offset, numberBuffer);
      offset := offset + length;
    }

    /**
      * print_string_ptr. The first loop counts the extra bytes, the second writes the literal; both stop
      * at the first NUL.
      */
    method PrintString(input: bytes) returns (ok: bool)
      requires Valid()
      modifies this`buffer, buffer
      ensures Valid() && (buffer == old(buffer) || (!noalloc && fresh(buffer))) && Room() == old(Room())
      ensures ok == (offset + |Quoted(CString(input))| + 2 <= old(Room()))
      ensures ok ==> Pending(old(Text()), Quoted(CString(input)))
    {
      var length, escapeCharacters := CountEscapes(input);
      var outputLength := length + escapeCharacters;
      ok := Ensure(outputLength + 3);
      if !ok {
        return;
      }
      StoreString(buffer, offset, input, outputLength, escapeCharacters);
    }

    /** print_value. */
    method PrintValue(item: Value) returns (ok: bool)
      requires Valid()
      modifies this`buffer, this`offset, this`depth, buffer
      ensures Valid() && (buffer == old(buffer) || (!noalloc && fresh(buffer))) && Room() == old(Room())
      ensures ok == (Printable(Seen(item), old(depth), fp)
                     && old(offset) + |Print(Seen(item), format, old(depth), fp)| + 2 <= old(Room()))
      ensures ok ==> Pending(old(Text()), Print(Seen(item), format, old(depth), fp)) && depth == old(depth)
      decreases item, 1
    {
      hide PrintItems, PrintMembers, PrintableItems, PrintableMembers;
      hide SeenItems, SeenMembers, Quoted, NumberText, CString;
      match item
      case Null => ok := Copy(5, NULL_TEXT);
      case Bool(b) => ok := Copy(if b then 5 else 6, if b then TRUE_TEXT else FALSE_TEXT);
      case Number(d) => ok := PrintNumber(d);
      case String(s) => ok := PrintString(s);
      case Array(items) => ok := PrintArray(items);
      case Object(members) => ok := PrintObject(members);
    }

    /** print_value and then update_offset, as every caller does. */
    method PrintNext(item: Value) returns (ok: bool)
      requires Valid()
      modifies this`buffer, this`offset, this`depth, buffer
      ensures Valid() && (buffer == old(buffer) || (!noalloc && fresh(buffer))) && Room() == old(Room())
      ensures ok == (Printable(Seen(item), old(depth), fp)
                     && old(offset) + |Print(Seen(item), format, old(depth), fp)| + 2 <= old(Room()))
      ensures ok ==> Text() == old(Text()) + Print(Seen(item), format, old(depth), fp) && depth == old(depth)
      decreases item, 2
    {
      hide Print, Printable, CStrings;
      ok := PrintValue(item);
      if ok {
        PrintNulFree(Seen(item), format, old(depth), fp);
        UpdateOffset(old(Text()), Print(Seen(item), format, old(depth), fp));
      }
    }

    /** print_array. */
    method PrintArray(items: seq<Value>) returns (ok: bool)
      requires Valid()
      modifies this`buffer, this`offset, this`depth, buffer
      ensures Valid() && (buffer == old(buffer) || (!noalloc && fresh(buffer))) && Room() == old(Room())
      ensures ok == (Printable(Array(SeenItems(items)), old(depth), fp)
                     && old(offset) + |Print(Array(SeenItems(items)), format, old(depth), fp)| + 2 <= old(Room()))
      ensures ok ==> Pending(old(Text()), Print(Array(SeenItems(items)), format, old(depth), fp))
                     && depth == old(depth)
      decreases items, 1
    {
      hide Print, Printable, PrintItems, PrintableItems, SeenItems, CStringItems;
      ghost var seen := SeenItems(items);
      ArrayParts(seen, format, depth, fp);
      if depth >= NESTING_LIMIT {
        return false;
      }
      ok := OpenArray();
      if !ok {
        return false;
      }
      ok := PrintElements(items);
      if !ok {
        return false;
      }
      ok := CopyEnd(2, [RBRACKET], old(Text()), [LBRACKET], PrintItems(seen, format, depth, fp));
      depth := depth - 1;
    }

    /** The opening bracket of print_array. */
    method OpenArray() returns (ok: bool)
      requires Valid()
      modifies this`buffer, this`offset, this`depth, buffer
      ensures Valid() && (buffer == old(buffer) || (!noalloc && fresh(buffer))) && Room() == old(Room())
      ensures ok == (old(offset) + 2 <= old(Room()))
      ensures ok ==> Text() == old(Text()) + [LBRACKET] && depth == old(depth) + 1
    {
      ok := Emit(1, [LBRACKET], false);
      depth := depth + 1;
    }

    /** The loop of print_array. */
    method PrintElements(items: seq<Value>) returns (ok: bool)
      requires Valid()
      modifies this`buffer, this`offset, this`depth, buffer
      ensures Valid() && (buffer == old(buffer) || (!noalloc && fresh(buffer))) && Room() == old(Room())
      ensures !ok ==> !PrintableItems(SeenItems(items), old(depth), fp)
                      || old(offset) + |PrintItems(SeenItems(items), format, old(depth), fp)| + 2 > old(Room())
      ensures ok ==> PrintableItems(SeenItems(items), old(depth), fp) && depth == old(depth)
                     && Text() == old(Text()) + PrintItems(SeenItems(items), format, old(depth), fp)
      decreases items, 0
    {
      hide Print, PrintItems, Printable, PrintableItems, SeenItems, CStringItems, ElementText;
      ghost var seen, base, d := SeenItems(items), old(Text()), depth;
      assert seen[0..] == seen;
      var i := 0;
      while i < |items|
        invariant i <= |items| && Valid() && depth == d && Room() == old(Room())
        invariant buffer == old(buffer) || (!noalloc && fresh(buffer))
        invariant Text() + PrintItems(seen[i..], format, d, fp) == base + PrintItems(seen, format, d, fp)
        invariant PrintableItems(seen, d, fp) == PrintableItems(seen[i..], d, fp)
      {
        ItemsStep(seen, i, format, d, fp);
        Assoc(Text(), ElementText(seen, i, format, d, fp), PrintItems(seen[i + 1..], format, d, fp));
        ok := PrintElement(items, i);
        if !ok {
          return false;
        }
        i := i + 1;
      }
      ItemsDone(seen, format, d, fp);
      assert Text() + [] == Text();
      return true;
    }

    /** The loop body of print_array. */
    method PrintElement(items: seq<Value>, i: nat) returns (ok: bool)
      requires Valid() && i < |items|
      modifies this`buffer, this`offset, this`depth, buffer
      ensures Valid() && (buffer == old(buffer) || (!noalloc && fresh(buffer))) && Room() == old(Room())
      ensures var t := ElementText(SeenItems(items), i, format, old(depth), fp);
        && ok == (Printable(Seen(items[i]), old(depth), fp) && old(offset) + |t| + 2 <= old(Room()))
        && (ok ==> Text() == old(Text()) + t && depth == old(depth))
      decreases items[i], 3
    {
      hide Print, Printable, SeenItems;
      ok := PrintNext(items[i]);
      if !ok {
        return false;
      }
      if i + 1 < |items| {
        var length := if format then 2 else 1;
        ok := Emit(length + 1, [COMMA] + IfFormat(format, [SPACE]), true);
      }
    }

    /** print_object. */
    method PrintObject(members: seq<Member>) returns (ok: bool)
      requires Valid()
      modifies this`buffer, this`offset, this`depth, buffer
      ensures Valid() && (buffer == old(buffer) || (!noalloc && fresh(buffer))) && Room() == old(Room())
      ensures ok == (Printable(Object(SeenMembers(members)), old(depth), fp)
                     && old(offset) + |Print(Object(SeenMembers(members)), format, old(depth), fp)| + 2 <= old(Room()))
      ensures ok ==> Pending(old(Text()), Print(Object(SeenMembers(members)), format, old(depth), fp))
                     && depth == old(depth)
      decreases members, 1
    {
      hide Print, Printable, PrintMembers, PrintableMembers, SeenMembers, CStringMembers, CloseText, OpenText;
      ghost var seen := SeenMembers(members);
      ObjectParts(seen, format, depth, fp);
      if depth >= NESTING_LIMIT {
        return false;
      }
      ok := PrintOpen();
      if !ok {
        return false;
      }
      ok := PrintAllMembers(members);
      if !ok {
        return false;
      }
      ok := PrintClose(old(depth), old(Text()), PrintMembers(seen, format, depth, fp));
      depth := depth - 1;
    }

    /** The loop of print_object. */
    method PrintAllMembers(members: seq<Member>) returns (ok: bool)
      requires Valid() && depth > 0
      modifies this`buffer, this`offset, this`depth, buffer
      ensures Valid() && (buffer == old(buffer) || (!noalloc && fresh(buffer))) && Room() == old(Room())
      ensures !ok ==> !PrintableMembers(SeenMembers(members), old(depth), fp)
                      || old(offset) + |PrintMembers(SeenMembers(members), format, old(depth), fp)| + 2 > old(Room())
      ensures ok ==> PrintableMembers(SeenMembers(members), old(depth), fp) && depth == old(depth)
                     && Text() == old(Text()) + PrintMembers(SeenMembers(members), format, old(depth), fp)
      decreases members, 0
    {
      hide Print, PrintMembers, Printable, PrintableMembers, SeenMembers, CStringMembers, MemberText;
      ghost var seen, base, d := SeenMembers(members), old(Text()), depth;
      assert seen[0..] == seen;
      var i := 0;
      while i < |members|
        invariant i <= |members| && Valid() && depth == d && Room() == old(Room())
        invariant buffer == old(buffer) || (!noalloc && fresh(buffer))
        invariant Text() + PrintMembers(seen[i..], format, d, fp) == base + PrintMembers(seen, format, d, fp)
        invariant PrintableMembers(seen, d, fp) == PrintableMembers(seen[i..], d, fp)
      {
        MembersStep(seen, i, format, d, fp);
        Assoc(Text(), MemberText(seen, i, format, d, fp), PrintMembers(seen[i + 1..], format, d, fp));
        ok := PrintMember(members, i);
        if !ok {
          return false;
        }
        i := i + 1;
      }
      MembersDone(seen, format, d, fp);
      assert Text() + [] == Text();
      return true;
    }

    /** The opening brace of print_object. */
    method PrintOpen() returns (ok: bool)
      requires Valid()
      modifies this`buffer, this`offset, this`depth, buffer
      ensures Valid() && (buffer == old(buffer) || (!noalloc && fresh(buffer))) && Room() == old(Room())
      ensures ok == (old(offset) + |OpenText(format)| + 2 <= old(Room()))
      ensures ok ==> Text() == old(Text()) + OpenText(format) && depth == old(depth) + 1
    {
      var length := if format then 2 else 1;
      ok := Emit(length + 1, [LBRACE] + (if format then [LF] else []), false);
      depth := depth + 1;
    }

    /** The indentation and the closing brace of print_object. */
    method PrintClose(ghost d: nat, ghost base: bytes, ghost body: bytes) returns (ok: bool)
      requires Valid() && depth == d + 1 && Text() == (base + OpenText(format)) + body
      modifies this`buffer, buffer
      ensures Valid() && (buffer == old(buffer) || (!noalloc && fresh(buffer))) && Room() == old(Room())
      ensures ok == (offset + |CloseText(format, d)| + 2 <= old(Room()))
      ensures ok ==> Pending(base, OpenText(format) + (body + CloseText(format, d)))
    {
      hide OpenText;
      var close := (if format then Tabs(depth - 1) else []) + [RBRACE];
      ok := CopyEnd(if format then depth + 1 else 2, close, base, OpenText(format), body);
    }

    /** The loop body of print_object. */
    method PrintMember(members: seq<Member>, i: nat) returns (ok: bool)
      requires Valid() && depth > 0 && i < |members|
      modifies this`buffer, this`offset, this`depth, buffer
      ensures Valid() && (buffer == old(buffer) || (!noalloc && fresh(buffer))) && Room() == old(Room())
      ensures var t := MemberText(SeenMembers(members), i, format, old(depth), fp);
        && ok == (Printable(Seen(members[i].value), old(depth), fp) && old(offset) + |t| + 2 <= old(Room()))
        && (ok ==> Text() == old(Text()) + t && depth == old(depth))
      decreases members[i], 3
    {
      hide Print, Printable, CStrings, SeenMembers, CString, MemberEnd, KeyText;
      ok := PrintKey(members[i].key);
      if !ok {
        return false;
      }
      ok := PrintNext(members[i].value);
      if !ok {
        return false;
      }
      ok := PrintMemberEnd(i + 1 < |members|);
      ThreeParts(old(Text()), KeyText(CString(members[i].key), format, old(depth)),
                 Print(Seen(members[i].value), format, old(depth), fp), MemberEnd(i + 1 < |members|, format));
    }

    /** Comma and line feed after a member. */
    method PrintMemberEnd(more: bool) returns (ok: bool)
      requires Valid()
      modifies this`buffer, this`offset, buffer
      ensures Valid() && (buffer == old(buffer) || (!noalloc && fresh(buffer))) && Room() == old(Room())
      ensures ok == (old(offset) + |MemberEnd(more, format)| + 2 <= old(Room()))
      ensures ok ==> Text() == old(Text()) + MemberEnd(more, format)
    {
      var length := (if format then 1 else 0) + (if more then 1 else 0);
      ok := Emit(length + 1, (if more then [COMMA] else []) + (if format then [LF] else []), true);
    }

    /** Indentation, key and colon of a member. */
    method PrintKey(key: bytes) returns (ok: bool)
      requires Valid() && depth > 0
      modifies this`buffer, this`offset, buffer
      ensures Valid() && (buffer == old(buffer) || (!noalloc && fresh(buffer))) && Room() == old(Room())
      ensures old(offset) + |KeyText(CString(key), format, depth)| + 2 <= old(Room()) ==> ok
      ensures ok ==> old(offset) + |KeyText(CString(key), format, depth)| + 1 <= old(Room())
      ensures ok ==> Text() == old(Text()) + KeyText(CString(key), format, depth)
    {
      hide Quoted, Tabs, NulFree, CString;
      ghost var start, tabs, seen := Text(), IfFormat(format, Tabs(depth)), CString(key);
      if format {
        ok := PrintTabs();
        if !ok {
          return false;
        }
      }
      assert Text() == start + tabs;
      ok := PrintString(key);
      if !ok {
        return false;
      }
      QuotedNulFree(seen);
      UpdateOffset(start + tabs, Quoted(seen));
      var length := if format then 2 else 1;
      ok := Emit(length, [COLON] + IfFormat(format, [TAB]), false);
      ThreeParts(start, tabs, Quoted(seen), [COLON] + IfFormat(format, [TAB]));
    }

    /** The indentation loop of print_object. */
    method PrintTabs() returns (ok: bool)
      requires Valid() && depth > 0
      modifies this`buffer, this`offset, buffer
      ensures Valid() && (buffer == old(buffer) || (!noalloc && fresh(buffer))) && Room() == old(Room())
      ensures ok == (old(offset) + depth + 1 <= old(Room()))
      ensures ok ==> Text() == old(Text()) + Tabs(depth)
    {
      ok := Ensure(depth);
      if !ok {
        return false;
      }
      var i := 0;
      ghost var base := Text();
      while i < depth
        invariant i <= depth && Valid() && offset == old(offset) && offset + depth + 1 <= buffer.Length
        invariant buffer == old(buffer) || (!noalloc && fresh(buffer))
        invariant Room() == old(Room())
        invariant buffer[..offset + i] == base + Tabs(i)
      {
        buffer[offset + i] := TAB;
        assert buffer[..offset + i + 1] == base + Tabs(i) + [TAB];
        assert Tabs(i + 1) == Tabs(i) + [TAB];
        i := i + 1;
      }
      offset := offset + depth;
    }
  }

  // --- Entry points --------------------------------------------------------------------

  /**
    * cJSON_Print and cJSON_PrintUnformatted, for any tree. The string that comes back is exactly the pure
    * text of what the printer sees of the tree, and a NUL; there is none exactly when the tree is not
    * printable or its text comes within two bytes of INT_MAX.
    */
  method PrintTree(item: Value, format: bool, fp: Format) returns (printed: array?<byte>)
    requires GoodFormat(fp)
    ensures printed != null <==> Printable(item, 0, fp) && |Print(Seen(item), format, 0, fp)| + 2 <= INT_MAX
    ensures printed != null ==> fresh(printed) && printed[..] == Print(Seen(item), format, 0, fp) + [0]
  {
    hide Print, Printable, CStrings, Seen;
    SeenPrintable(item, 0, fp);
    var block := new byte[256];
    var p := new PrintBuffer(block, false, format, fp);
    var ok := p.PrintValue(item);
    if !ok {
      return null;
    }
    ghost var t := Print(Seen(item), format, 0, fp);
    PrintNulFree(Seen(item), format, 0, fp);
    assert [] + t == t;
    p.UpdateOffset([], t);
    printed := Shrunk(p.buffer, p.offset + 1);
    assert p.buffer[..p.offset + 1] == p.buffer[..p.offset] + [p.buffer[p.offset]];
  }

  /** realloc to a smaller size. */
  method Shrunk(block: array<byte>, size: nat) returns (copy: array<byte>)
    requires size <= block.Length
    ensures fresh(copy) && copy[..] == block[..size]
  {
    copy := new byte[size];
    forall k | 0 <= k < size {
      copy[k] := block[k];
    }
  }

  /** A block of this length is accepted for the tree: one byte more than text and NUL need. */
  predicate BlockAccepted(item: Value, format: bool, fp: Format, length: nat) {
    Printable(item, 0, fp) && |Print(Seen(item), format, 0, fp)| + 1 < length
  }

  /** "null" and its NUL need five bytes; a block of five is refused, one of six accepted. */
  lemma ExactFitIsRefused(format: bool, fp: Format)
    ensures |Print(Null, format, 0, fp) + [0]| == 5
    ensures !BlockAccepted(Null, format, fp, 5) && BlockAccepted(Null, format, fp, 6)
  {
    assert Print(Null, format, 0, fp) == NULL_TEXT;
  }

  /**
    * cJSON_PrintPreallocated. It reports success only if the text and its NUL fit, and exactly when one
    * byte more is there: a block that fits them exactly is refused.
    */
  method PrintPreallocated(item: Value, block: array<byte>, format: bool, fp: Format) returns (ok: bool)
    requires GoodFormat(fp) && block.Length <= INT_MAX
    modifies block
    ensures ok == BlockAccepted(item, format, fp, block.Length)
    ensures ok ==> var t := Print(Seen(item), format, 0, fp); block[..|t| + 1] == t + [0]
  {
    hide Print, Printable, CStrings, Seen;
    SeenPrintable(item, 0, fp);
    var p := new PrintBuffer(block, true, format, fp);
    ok := p.PrintValue(item);
    ghost var t := Print(Seen(item), format, 0, fp);
    if ok {
      assert [] + t == t;
      assert block[..|t| + 1] == block[..|t|] + [block[|t|]];
    }
  }

  // --- The text of a container, read from element i on -------------------------------

  lemma ThreeParts(base: bytes, a: bytes, b: bytes, c: bytes)
    ensures ((base + a) + b) + c == base + ((a + b) + c)
  {
    Assoc(base + a, b, c);
    Assoc(base, a, b + c);
    Assoc(a, b, c);
  }

  lemma Bracketed(base: bytes, open: bytes, t: bytes, close: bytes)
    ensures ((base + open) + t) + close == base + (open + (t + close))
  {
    Assoc(base + open, t, close);
    Assoc(base, open, t + close);
  }

  /** Element `i` and the separator after it. */
  function ElementText(items: seq<Value>, i: nat, format: bool, depth: nat, fp: Format): bytes
    requires i < |items|
  {
    Print(items[i], format, depth, fp) + ItemEnd(i + 1 < |items|, format)
  }

  lemma ArrayParts(items: seq<Value>, format: bool, depth: nat, fp: Format)
    ensures Print(Array(items), format, depth, fp)
         == [LBRACKET] + (PrintItems(items, format, depth + 1, fp) + [RBRACKET])
    ensures Printable(Array(items), depth, fp) == (depth < NESTING_LIMIT && PrintableItems(items, depth + 1, fp))
  {
  }

  lemma ItemsStep(items: seq<Value>, i: nat, format: bool, depth: nat, fp: Format)
    requires i < |items|
    ensures PrintItems(items[i..], format, depth, fp)
         == ElementText(items, i, format, depth, fp) + PrintItems(items[i + 1..], format, depth, fp)
    ensures PrintableItems(items[i..], depth, fp)
         == (Printable(items[i], depth, fp) && PrintableItems(items[i + 1..], depth, fp))
  {
    hide Print, Printable;
    assert items[i..][1..] == items[i + 1..];
    Assoc(Print(items[i], format, depth, fp), ItemEnd(i + 1 < |items|, format),
          PrintItems(items[i + 1..], format, depth, fp));
  }

  lemma ItemsDone(items: seq<Value>, format: bool, depth: nat, fp: Format)
    ensures PrintItems(items[|items|..], format, depth, fp) == []
    ensures PrintableItems(items[|items|..], depth, fp)
  {
  }

  // --- The text of an object, read from member i on ----------------------------------

  function OpenText(format: bool): (t: bytes)
    ensures |t| > 0
  {
    [LBRACE] + IfFormat(format, [LF])
  }

  function CloseText(format: bool, depth: nat): (t: bytes)
    ensures |t| > 0
  {
    IfFormat(format, Tabs(depth)) + [RBRACE]
  }

  function KeyText(key: bytes, format: bool, depth: nat): bytes {
    (IfFormat(format, Tabs(depth)) + Quoted(key)) + ([COLON] + IfFormat(format, [TAB]))
  }

  /** Member `i` with its indentation, and what separates it from the next. */
  function MemberText(members: seq<Member>, i: nat, format: bool, depth: nat, fp: Format): bytes
    requires i < |members|
  {
    (KeyText(members[i].key, format, depth) + Print(members[i].value, format, depth, fp))
      + MemberEnd(i + 1 < |members|, format)
  }

  lemma ObjectParts(members: seq<Member>, format: bool, depth: nat, fp: Format)
    ensures Print(Object(members), format, depth, fp)
         == OpenText(format)
            + (PrintMembers(members, format, depth + 1, fp) + CloseText(format, depth))
    ensures Printable(Object(members), depth, fp)
         == (depth < NESTING_LIMIT && PrintableMembers(members, depth + 1, fp))
  {
    Assoc([LBRACE], IfFormat(format, [LF]),
          PrintMembers(members, format, depth + 1, fp) + CloseText(format, depth));
  }

  lemma SixParts(t: bytes, q: bytes, c: bytes, tab: bytes, p: bytes, e: bytes, rest: bytes)
    ensures t + (q + (c + (tab + (p + (e + rest))))) == ((((t + q) + (c + tab)) + p) + e) + rest
  {
    Assoc((((t + q) + (c + tab)) + p), e, rest);
    Assoc(((t + q) + (c + tab)), p, e + rest);
    Assoc(t + q, c + tab, p + (e + rest));
    Assoc(c, tab, p + (e + rest));
    Assoc(t, q, c + (tab + (p + (e + rest))));
  }

  lemma MembersStep(members: seq<Member>, i: nat, format: bool, depth: nat, fp: Format)
    requires i < |members|
    ensures PrintMembers(members[i..], format, depth, fp)
         == MemberText(members, i, format, depth, fp) + PrintMembers(members[i + 1..], format, depth, fp)
    ensures PrintableMembers(members[i..], depth, fp)
         == (Printable(members[i].value, depth, fp) && PrintableMembers(members[i + 1..], depth, fp))
  {
    hide Print, Printable, Quoted, Tabs;
    assert members[i..][1..] == members[i + 1..];
    SixParts(IfFormat(format, Tabs(depth)), Quoted(members[i].key), [COLON], IfFormat(format, [TAB]),
             Print(members[i].value, format, depth, fp), MemberEnd(i + 1 < |members|, format),
             PrintMembers(members[i + 1..], format, depth, fp));
  }

  lemma MembersDone(members: seq<Member>, format: bool, depth: nat, fp: Format)
    ensures PrintMembers(members[|members|..], format, depth, fp) == []
    ensures PrintableMembers(members[|members|..], depth, fp)
  {
  }

  // --- No byte 0 in a printed text ---------------------------------------------------

  lemma NulFreeCat(a: bytes, b: bytes)
    requires NulFree(a) && NulFree(b)
    ensures NulFree(a + b)
  {
  }

  lemma {:induction false} PrintNulFree(v: Value, format: bool, depth: nat, fp: Format)
    requires CStrings(v) && GoodFormat(fp)
    ensures NulFree(Print(v, format, depth, fp))
    decreases v, 1
  {
    match v
    case Number(d) => NumeralNulFree(NumberNumeral(d, fp));
    case String(s) => QuotedNulFree(s);
    case Array(items) => ItemsNulFree(items, format, depth + 1, fp);
    case Object(members) => MembersNulFree(members, format, depth + 1, fp);
    case _ =>
  }

  lemma NumeralNulFree(n: Numeral)
    requires ValidNumeral(n)
    ensures NulFree(NumeralText(n))
  {
    NulFreeCat(FracText(n.frac), ExpText(n.exp));
    NulFreeCat(n.whole, FracText(n.frac) + ExpText(n.exp));
    NulFreeCat(SignText(n.neg), n.whole + (FracText(n.frac) + ExpText(n.exp)));
  }

  lemma {:induction false} QuotedNulFree(s: bytes)
    requires NulFree(s)
    ensures NulFree(Quoted(s)) && NulFree(Escaped(s))
    decreases |s|
  {
    if s != [] {
      QuotedNulFree(s[1..]);
      NulFreeCat(EscapedByte(s[0]), Escaped(s[1..]));
    }
  }

  lemma {:induction false} ItemsNulFree(items: seq<Value>, format: bool, depth: nat, fp: Format)
    requires CStringItems(items) && GoodFormat(fp)
    ensures NulFree(PrintItems(items, format, depth, fp))
    decreases items, 0
  {
    if items != [] {
      PrintNulFree(items[0], format, depth, fp);
      ItemsNulFree(items[1..], format, depth, fp);
    }
  }

  lemma {:induction false} MembersNulFree(members: seq<Member>, format: bool, depth: nat, fp: Format)
    requires CStringMembers(members) && GoodFormat(fp)
    ensures NulFree(PrintMembers(members, format, depth, fp))
    decreases members, 0
  {
    if members != [] {
      QuotedNulFree(members[0].key);
      PrintNulFree(members[0].value, format, depth, fp);
      MembersNulFree(members[1..], format, depth, fp);
    }
  }
}
