/**
  * The parser of src/core/cJSON.c as it runs: an offset and a depth that move over a buffer, two passes
  * over a string literal into a block sized by the first, step-backs around white space. Every index
  * it reads or writes is proved to be in range, for any buffer.
  */
module JsonParser {
  import opened BitOps
  import opened Bytes
  import opened JsonValue
  import opened Utf8Encoding
  import opened JsonStringSpec
  import opened JsonParseSpec

  /** parse_hex4 on the four bytes from `q`. */
  method ParseHex4(s: bytes, q: nat) returns (h: nat)
    requires q + 4 <= |s|
    ensures h == Hex4(s[q..q + 4])
  {
    h := 0;
    var i := 0;
    while i < 4
      invariant i <= 4
      invariant forall k | q <= k < q + i :: IsHex(s[k])
      invariant i == 0 ==> h == 0
      invariant i == 1 ==> h == 16 * HexDigit(s[q])
      invariant i == 2 ==> h == 16 * (16 * HexDigit(s[q]) + HexDigit(s[q + 1]))
      invariant i == 3 ==> h == 16 * (16 * (16 * HexDigit(s[q]) + HexDigit(s[q + 1])) + HexDigit(s[q + 2]))
      invariant i == 4 ==>
        h == 16 * (16 * (16 * HexDigit(s[q]) + HexDigit(s[q + 1])) + HexDigit(s[q + 2])) + HexDigit(s[q + 3])
    {
      var c := s[q + i];
      assert c == s[q..q + 4][i];
      if 48 <= c <= 57 {
        h := h + (c - 48);
      } else if 65 <= c <= 70 {
        h := h + (10 + c - 65);
      } else if 97 <= c <= 102 {
        h := h + (10 + c - 97);
      } else {
        return 0;
      }
      if i < 3 {
        h := h * 16;
      }
      i := i + 1;
    }
  }

  /**
    * The encoding part of utf16_literal_to_utf8: continuation bytes from the last one backwards, six
    * bits at a time, then the first byte with its length mark.
    */
  method EncodeUtf8(codepoint: nat, out: array<byte>, o: nat) returns (len: nat)
    requires codepoint <= 0x10FFFF && o + Utf8Length(codepoint) <= out.Length
    modifies out
    ensures len == Utf8Length(codepoint)
    ensures out[o..o + len] == Utf8Bytes(codepoint)
    ensures out[..o] == old(out[..o])
  {
    hide Utf8Bytes, BitAnd, BitOr;
    var mark: nat;
    if codepoint < 0x80 {
      len, mark := 1, 0;
    } else if codepoint < 0x800 {
      len, mark := 2, 0xC0;
    } else if codepoint < 0x10000 {
      len, mark := 3, 0xE0;
    } else {
      len, mark := 4, 0xF0;
    }
    Utf8Parts(codepoint);
    var cp := FillContinuation(codepoint, len - 1, out, o + 1);
    ghost var tail := out[o + 1..o + len];
    FirstByte(cp, len, mark);
    if len > 1 {
      out[o] := BitAnd(BitOr(cp, mark), 0xFF);
    } else {
      out[o] := BitAnd(cp, 0x7F);
    }
    assert out[o..o + len] == [out[o]] + tail;
  }

  /** The loop of utf16_literal_to_utf8 over the continuation bytes; what is left of the code point. */
  method FillContinuation(codepoint: nat, n: nat, out: array<byte>, o: nat) returns (cp: nat)
    requires o + n <= out.Length
    modifies out
    ensures cp == Shifted(codepoint, n)
    ensures out[..o] == old(out[..o]) && out[o..o + n] == Continuation(codepoint, n)
  {
    hide BitAnd, BitOr;
    cp := codepoint;
    var position := n;
    while position > 0
      invariant 0 <= position <= n && cp == Shifted(codepoint, n - position)
      invariant out[..o] == old(out[..o]) && out[o + position..o + n] == Continuation(codepoint, n - position)
    {
      ghost var done := out[o + position..o + n];
      position := position - 1;
      ContinuationBits(cp);
      out[o + position] := BitAnd(BitOr(cp, 0x80), 0xBF);
      assert out[o + position..o + n] == [out[o + position]] + done;
      cp := cp / 64;
    }
  }

  /** `cp >>= 6`, n times. */
  function Shifted(cp: nat, n: nat): nat {
    if n == 0 then cp else Shifted(cp, n - 1) / 64
  }

  /** The last n continuation bytes of an encoding. */
  function Continuation(cp: nat, n: nat): bytes {
    if n == 0 then [] else [0x80 + Shifted(cp, n - 1) % 64] + Continuation(cp, n - 1)
  }

  /** Values the first byte of an encoding has room for. */
  function FreeBits(length: nat): nat {
    if length == 1 then 128 else if length == 2 then 32 else if length == 3 then 16 else 8
  }

  lemma FirstByte(cp: nat, length: nat, mark: nat)
    requires 1 <= length <= 4 && cp < FreeBits(length)
    requires mark == if length == 1 then 0 else if length == 2 then 0xC0 else if length == 3 then 0xE0 else 0xF0
    ensures length > 1 ==> BitAnd(BitOr(cp, mark), 0xFF) == mark + cp
    ensures length == 1 ==> BitAnd(cp, 0x7F) == cp
  {
    hide BitAnd, BitOr;
    if length == 1 {
      AsciiBits(cp);
    } else {
      FirstBits(cp, mark);
    }
  }

  /** Filling an encoding from its end gives the table of RFC 3629. */
  lemma Utf8Parts(cp: nat)
    requires cp <= 0x10FFFF
    ensures var n := Utf8Length(cp);
      var first := (if n == 1 then 0 else if n == 2 then 0xC0 else if n == 3 then 0xE0 else 0xF0)
                   + Shifted(cp, n - 1);
      first < 256 && Utf8Bytes(cp) == [first] + Continuation(cp, n - 1)
    ensures Shifted(cp, Utf8Length(cp) - 1) < FreeBits(Utf8Length(cp))
  {
    assert Shifted(cp, 1) == Shifted(cp, 0) / 64 == cp / 64;
    assert Shifted(cp, 2) == Shifted(cp, 1) / 64 == cp / 4096;
    assert Shifted(cp, 3) == Shifted(cp, 2) / 64 == cp / 262144;
    assert Continuation(cp, 0) == [];
    assert Continuation(cp, 1) == [0x80 + cp % 64];
    assert Continuation(cp, 2) == [0x80 + cp / 64 % 64, 0x80 + cp % 64];
    assert Continuation(cp, 3) == [0x80 + cp / 4096 % 64, 0x80 + cp / 64 % 64, 0x80 + cp % 64];
  }

  /** utf16_literal_to_utf8: 0 on failure, else the length of the escape; `n` bytes are written at `o`. */
  method Utf16LiteralToUtf8(s: bytes, p: nat, end: nat, out: array<byte>, o: nat)
      returns (sequenceLength: nat, n: nat)
    requires p <= end <= |s|
    requires var e := EscapeAt(s, p, end); e.Some? ==> o + Utf8Length(e.value.0) <= out.Length
    requires o <= out.Length
    modifies out
    ensures out[..o] == old(out[..o])
    ensures var e := EscapeAt(s, p, end);
      if e.None? then sequenceLength == 0
      else sequenceLength == e.value.1 && n == Utf8Length(e.value.0)
           && out[o..o + n] == Utf8Bytes(e.value.0)
  {
    hide Hex4, Utf8Bytes, BitAnd, BitOr;
    sequenceLength, n := 0, 0;
    if end - p < 6 {
      return;
    }
    var first := ParseHex4(s, p + 2);
    if 0xDC00 <= first <= 0xDFFF {
      return;
    }
    var codepoint;
    if 0xD800 <= first <= 0xDBFF {
      var second := p + 6;
      if end - second < 6 {
        return;
      }
      if s[second] != BACKSLASH || s[second + 1] != 117 {
        return;
      }
      var low := ParseHex4(s, second + 2);
      if low < 0xDC00 || low > 0xDFFF {
        return;
      }
      PairBits(first, low);
      // a shift by 10 bits
      codepoint := 0x10000 + BitOr(BitAnd(first, 0x3FF) * 1024, BitAnd(low, 0x3FF));
      sequenceLength := 12;
    } else {
      codepoint := first;
      sequenceLength := 6;
    }
    n := EncodeUtf8(codepoint, out, o);
  }

  /** The switch of parse_string on the character after a backslash. */
  method Unescape(c: byte) returns (known: bool, b: byte)
    ensures known == SimpleEscape(c).Some? && (known ==> b == SimpleEscape(c).value)
  {
    known, b := true, c;
    if c == 98 {
      b := 8;
    } else if c == 102 {
      b := 12;
    } else if c == 110 {
      b := LF;
    } else if c == 114 {
      b := CR;
    } else if c == 116 {
      b := TAB;
    } else if c != QUOTE && c != BACKSLASH && c != SLASH {
      known := false;
    }
  }

  /** A parse_buffer: `content` has `length` bytes, with or without a final NUL. */
  class Buffer {
    const content: bytes
    var offset: nat
    var depth: nat

    constructor (value: bytes)
      ensures content == value && offset == 0 && depth == 0
    {
      content := value;
      offset, depth := 0, 0;
    }

    /**
      * buffer_skip_whitespace: at the end of the buffer it steps back onto the last byte, which is a
      * blank then, unless it was at the end already.
      */
    method SkipWhitespace()
      requires offset <= |content|
      modifies this`offset
      ensures offset == Landing(content, old(offset))
    {
      if offset == |content| {
        return;
      }
      while offset < |content| && content[offset] <= 32
        invariant old(offset) <= offset <= |content|
        invariant SkipBlanks(content, offset) == SkipBlanks(content, old(offset))
        invariant offset > old(offset) ==> content[offset - 1] <= 32
      {
        offset := offset + 1;
      }
      if offset == |content| {
        offset := offset - 1;
      }
    }

    /** The first scan of parse_string: the closing quote, and the number of bytes it skipped. */
    method ScanString(start: nat) returns (ok: bool, end: nat, skipped: nat)
      requires start <= |content|
      ensures ok == ScanEnd(content, start).Some?
      ensures ok ==> end == ScanEnd(content, start).value
      ensures ok ==> skipped <= end - start && Units(content, start, end) == end - start - skipped
    {
      end, skipped := start, 0;
      while end < |content| && content[end] != QUOTE
        invariant start <= end <= |content|
        invariant ScanEnd(content, end) == ScanEnd(content, start)
        invariant 0 <= skipped <= end - start
        invariant ScanEnd(content, start).Some? ==>
          end <= ScanEnd(content, start).value &&
          Units(content, start, ScanEnd(content, start).value)
            == Units(content, end, ScanEnd(content, start).value) + (end - start - skipped)
      {
        if content[end] == BACKSLASH {
          if end + 1 >= |content| {
            return false, end, skipped;
          }
          skipped := skipped + 1;
          end := end + 1;
        }
        end := end + 1;
      }
      ok := end < |content|;
    }

    /**
      * parse_string. The block has `end - offset - skipped + 1` bytes; all writes are proved to fall
      * inside it, the final NUL included, also when a malformed escape makes the decoding stop or run
      * over the closing quote.
      */
    method ParseString() returns (ok: bool, value: bytes)
      requires offset < |content|
      modifies this`offset
      ensures ok == LiteralAt(content, old(offset)).Some?
      ensures ok ==> LiteralAt(content, old(offset)) == Some((value, offset))
      ensures offset <= |content|
    {
      var start := offset + 1;
      value := [];
      if content[offset] != QUOTE {
        offset := start;
        return false, value;
      }
      var scanned, end, skipped := ScanString(start);
      if !scanned {
        offset := start;
        return false, value;
      }
      var allocation := end - offset - skipped;
      var output := new byte[allocation + 1];
      DecodedFits(content, start, start, end);
      var done, n, stop := DecodeInto(start, end, output);
      if !done {
        offset := stop;
        return false, value;
      }
      output[n] := 0;
      value := output[..n];
      offset := end + 1;
      return true, value;
    }

    /** The second pass of parse_string. */
    method DecodeInto(start: nat, end: nat, output: array<byte>) returns (ok: bool, n: nat, stop: nat)
      requires start <= end < |content|
      requires |DecodeBody(content, start, end).out| < output.Length
      modifies output
      ensures ok == DecodeBody(content, start, end).ok
      ensures n < output.Length && stop <= |content|
      ensures ok ==> output[..n] == DecodeBody(content, start, end).out
    {
      hide DecodeBody;
      ghost var whole := DecodeBody(content, start, end);
      PrependNothing(whole);
      var p := start;
      n := 0;
      while p < end
        invariant start <= p <= end + 1 && n < output.Length
        invariant whole == Prepend(output[..n], DecodeBody(content, p, end))
        decreases end + 1 - p
      {
        ghost var before := output[..n];
        var k, length := DecodeUnit(p, end, output, n);
        if length == 0 {
          return false, n, p;
        }
        n, p := n + k, p + length;
        ghost var t := output[|before|..n];
        assert output[..n] == before + t;
        Regroup(before, t, DecodeBody(content, p, end));
      }
      DecodeEnd(p, end);
      assert output[..n] + [] == output[..n];
      return true, n, p;
    }

    lemma DecodeEnd(p: nat, end: nat)
      requires end < |content| && p >= end
      ensures DecodeBody(content, p, end) == Decoded([], true, p)
    {
    }

    lemma PrependNothing(d: Decoded)
      ensures Prepend([], d) == d
    {
      assert [] + d.out == d.out;
    }

    /** One turn of the decoding loop: `k` bytes are written at `n`; length 0 is a malformed escape. */
    method DecodeUnit(p: nat, end: nat, output: array<byte>, n: nat) returns (k: nat, length: nat)
      requires p < end < |content|
      requires n + |DecodeBody(content, p, end).out| < output.Length
      modifies output
      ensures output[..n] == old(output[..n])
      ensures length == 0 ==> DecodeBody(content, p, end) == Decoded([], false, p)
      ensures length > 0 ==> p + length <= end + 1 && n + k <= output.Length
      ensures length > 0 ==>
        DecodeBody(content, p, end) == Prepend(output[n..n + k], DecodeBody(content, p + length, end))
    {
      hide EscapeAt, SimpleEscape, Utf8Bytes;
      if content[p] != BACKSLASH {
        output[n] := content[p];
        return 1, 1;
      }
      if content[p + 1] == 117 {
        length, k := Utf16LiteralToUtf8(content, p, end, output, n);
      } else {
        var known, c := Unescape(content[p + 1]);
        if !known {
          return 0, 0;
        }
        output[n] := c;
        return 1, 2;
      }
    }

    lemma Regroup(a: bytes, b: bytes, d: Decoded)
      ensures Prepend(a, Prepend(b, d)) == Prepend(a + b, d)
    {
      assert a + (b + d.out) == (a + b) + d.out;
    }

    /** parse_number: the run of number characters is copied, and strtod reads a prefix of the copy. */
    method ParseNumber() returns (ok: bool, number: real)
      requires offset <= |content|
      modifies this`offset
      ensures var r := StrToD(content[old(offset)..RunEnd(content, old(offset))]);
        if r.None? then !ok && offset == old(offset)
        else ok && number == r.value.1 && offset == old(offset) + r.value.0
      ensures offset <= |content|
    {
      var i := 0;
      var hasDecimalPoint := false;
      while offset + i < |content| && IsNumberChar(content[offset + i])
        invariant offset + i <= |content|
        invariant RunEnd(content, offset + i) == RunEnd(content, offset)
        invariant hasDecimalPoint == (DOT in content[offset..offset + i])
      {
        if content[offset + i] == DOT {
          hasDecimalPoint := true;
        }
        assert content[offset..offset + i + 1] == content[offset..offset + i] + [content[offset + i]];
        i := i + 1;
      }
      var copy := content[offset..offset + i];
      match StrToD(copy) {
        case None => return false, 0.0;
        case Some((consumed, d)) =>
          offset := offset + consumed;
          return true, d;
      }
    }

    /** parse_value. On success the offset is after the value and the depth is restored. */
    method ParseValue() returns (ok: bool, item: Value)
      requires offset <= |content|
      modifies this`offset, this`depth
      ensures offset <= |content|
      ensures ok == ValueAt(content, old(offset), old(depth)).Done?
      ensures ok ==> ValueAt(content, old(offset), old(depth)) == Done(item, offset)
      ensures ok ==> depth == old(depth) && offset > old(offset)
      decreases |content| - offset, 3
    {
      item := Null;
      if offset + 4 <= |content| && content[offset..offset + 4] == NULL_TEXT {
        offset := offset + 4;
        return true, Null;
      }
      if offset + 5 <= |content| && content[offset..offset + 5] == FALSE_TEXT {
        offset := offset + 5;
        return true, Bool(false);
      }
      if offset + 4 <= |content| && content[offset..offset + 4] == TRUE_TEXT {
        offset := offset + 4;
        return true, Bool(true);
      }
      if offset < |content| && content[offset] == QUOTE {
        var t;
        ok, t := ParseString();
        return ok, String(t);
      }
      if offset < |content| && (content[offset] == MINUS || IsDigit(content[offset])) {
        var d;
        ok, d := ParseNumber();
        return ok, Number(d);
      }
      if offset < |content| && content[offset] == LBRACKET {
        var items;
        ok, items := ParseArray();
        return ok, Array(items);
      }
      if offset < |content| && content[offset] == LBRACE {
        var members;
        ok, members := ParseObject();
        return ok, Object(members);
      }
      return false, Null;
    }

    /** parse_array; children are collected in order. */
    method ParseArray() returns (ok: bool, items: seq<Value>)
      requires offset < |content| && content[offset] == LBRACKET
      modifies this`offset, this`depth
      ensures offset <= |content|
      ensures ok == ValueAt(content, old(offset), old(depth)).Done?
      ensures ok ==> ValueAt(content, old(offset), old(depth)) == Done(Array(items), offset)
      ensures ok ==> depth == old(depth) && offset > old(offset)
      decreases |content| - offset, 1
    {
      hide ElementsAt, MembersAt, ValueAt, SkipBlanks, Landing, After;
      items := [];
      ghost var start, first, inner := offset, offset + 1, depth + 1;
      ArrayUnfolded(content, start, depth);
      if depth >= NESTING_LIMIT {
        return false, items;
      }
      depth := depth + 1;
      offset := offset + 1;
      SkipWhitespace();
      if offset < |content| && content[offset] == RBRACKET {
        depth := depth - 1;
        offset := offset + 1;
        return true, items;
      }
      if offset == |content| {
        offset := offset - 1;
        ElementUnfolded(content, first, inner);
        NothingAtEnd(content, inner);
        return false, items;
      }
      SameElements(content, first, inner);
      // step back to the character in front of the first element
      offset := offset - 1;
      ok, items := ParseElements();
      if ok {
        depth := depth - 1;
      }
    }

    /** The loop of parse_array over the elements, and the closing bracket. */
    method ParseElements() returns (ok: bool, items: seq<Value>)
      requires offset < |content|
      modifies this`offset, this`depth
      ensures offset <= |content|
      ensures ok == ElementsAt(content, old(offset) + 1, old(depth)).Done?
      ensures ok ==> ElementsAt(content, old(offset) + 1, old(depth)) == Done(items, offset)
      ensures ok ==> depth == old(depth) && offset > old(offset)
      decreases |content| - offset, 0
    {
      hide ElementsAt, MembersAt, ValueAt, SkipBlanks, Landing, After;
      items := [];
      ghost var first, inner := offset + 1, depth;
      AfterNothing(ElementsAt(content, first, inner));
      while true
        invariant old(offset) <= offset < |content| && depth == inner
        invariant ElementsAt(content, first, inner) == After(items, ElementsAt(content, offset + 1, inner))
        decreases |content| - offset
      {
        offset := offset + 1;
        ElementUnfolded(content, offset, inner);
        SkipWhitespace();
        var parsed, item := ParseValue();
        AfterFail(items, Fail);
        if !parsed {
          return false, items;
        }
        SkipWhitespace();
        AfterLast(items, item, offset + 1);
        items := items + [item];
        if offset == |content| || content[offset] != COMMA {
          break;
        }
        AfterAfter(items[..|items| - 1], item, ElementsAt(content, offset + 1, inner));
      }
      if offset == |content| || content[offset] != RBRACKET {
        return false, items;
      }
      offset := offset + 1;
      return true, items;
    }

    /** parse_object. */
    method ParseObject() returns (ok: bool, members: seq<Member>)
      requires offset < |content| && content[offset] == LBRACE
      modifies this`offset, this`depth
      ensures offset <= |content|
      ensures ok == ValueAt(content, old(offset), old(depth)).Done?
      ensures ok ==> ValueAt(content, old(offset), old(depth)) == Done(Object(members), offset)
      ensures ok ==> depth == old(depth) && offset > old(offset)
      decreases |content| - offset, 2
    {
      hide ElementsAt, MembersAt, MemberAt, ValueAt, SkipBlanks, Landing, After;
      members := [];
      ghost var start, first, inner := offset, offset + 1, depth + 1;
      ObjectUnfolded(content, start, depth);
      if depth >= NESTING_LIMIT {
        return false, members;
      }
      depth := depth + 1;
      offset := offset + 1;
      SkipWhitespace();
      if offset < |content| && content[offset] == RBRACE {
        depth := depth - 1;
        offset := offset + 1;
        return true, members;
      }
      if offset == |content| {
        offset := offset - 1;
        MembersUnfolded(content, first, inner);
        NothingAtEnd(content, inner);
        return false, members;
      }
      SameMembers(content, first, inner);
      // step back to the character in front of the first member
      offset := offset - 1;
      ok, members := ParseMembers();
      if ok {
        depth := depth - 1;
      }
    }

    /** The loop of parse_object over the members, and the closing brace. */
    method ParseMembers() returns (ok: bool, members: seq<Member>)
      requires offset < |content|
      modifies this`offset, this`depth
      ensures offset <= |content|
      ensures ok == MembersAt(content, old(offset) + 1, old(depth)).Done?
      ensures ok ==> MembersAt(content, old(offset) + 1, old(depth)) == Done(members, offset)
      ensures ok ==> depth == old(depth) && offset > old(offset)
      decreases |content| - offset, 1
    {
      hide ElementsAt, MembersAt, MemberAt, ValueAt, SkipBlanks, Landing, After;
      members := [];
      ghost var first, inner := offset + 1, depth;
      AfterNothing(MembersAt(content, first, inner));
      while true
        invariant old(offset) <= offset < |content| && depth == inner
        invariant MembersAt(content, first, inner) == After(members, MembersAt(content, offset + 1, inner))
        decreases |content| - offset
      {
        MembersUnfolded(content, offset + 1, inner);
        var parsed, member := ParseMember();
        AfterFail(members, Fail);
        if !parsed {
          return false, members;
        }
        SkipWhitespace();
        AfterLast(members, member, offset + 1);
        members := members + [member];
        if offset == |content| || content[offset] != COMMA {
          break;
        }
        AfterAfter(members[..|members| - 1], member, MembersAt(content, offset + 1, inner));
      }
      if offset == |content| || content[offset] != RBRACE {
        return false, members;
      }
      offset := offset + 1;
      return true, members;
    }

    /**
      * The loop body of parse_object, from the character in front of a member: the key is parsed as a
      * string and becomes the item's name, then the value.
      */
    method ParseMember() returns (ok: bool, member: Member)
      requires offset < |content|
      modifies this`offset, this`depth
      ensures offset <= |content|
      ensures ok == MemberAt(content, old(offset) + 1, old(depth)).Done?
      ensures ok ==> MemberAt(content, old(offset) + 1, old(depth)) == Done(member, offset)
      ensures ok ==> depth == old(depth) && offset > old(offset)
      decreases |content| - offset, 0
    {
      hide ElementsAt, MembersAt, MemberAt, ValueAt, LiteralAt;
      member := Member([], Null);
      MemberUnfolded(content, offset + 1, depth);
      if offset + 1 >= |content| {
        NothingAtEnd(content, depth);
        return false, member;
      }
      offset := offset + 1;
      SkipWhitespace();
      var named, key := ParseString();
      if !named {
        return false, member;
      }
      SkipWhitespace();
      if offset == |content| || content[offset] != COLON {
        return false, member;
      }
      offset := offset + 1;
      SkipWhitespace();
      var parsed, item := ParseValue();
      return parsed, Member(key, item);
    }
  }

  /** cJSON_ParseWithLengthOpts: the whole text, with its NUL when it was given as a C string. */
  method ParseWithLengthOpts(value: bytes, requireNullTerminated: bool) returns (item: Option<Value>)
    ensures item == ParseBuffer(value, requireNullTerminated)
  {
    hide ValueAt;
    if |value| == 0 {
      return None;
    }
    var buffer := new Buffer(value);
    if 4 < |value| && value[..3] == BOM {
      buffer.offset := buffer.offset + 3;
    }
    LandingParses(value, buffer.offset, 0);
    buffer.SkipWhitespace();
    var ok, v := buffer.ParseValue();
    if !ok {
      return None;
    }
    if requireNullTerminated {
      buffer.SkipWhitespace();
      if buffer.offset == |value| || value[buffer.offset] != 0 {
        return None;
      }
    }
    return Some(v);
  }

  // --- One turn of the loops, by positions -------------------------------------------

  /** What was collected so far, in front of what is still to come. */
  function After<T>(items: seq<T>, r: Parsed<seq<T>>): Parsed<seq<T>> {
    match r
    case Fail => Fail
    case Done(rest, next) => Done(items + rest, next)
  }

  lemma AfterFail<T>(items: seq<T>, r: Parsed<seq<T>>)
    requires r.Fail?
    ensures After(items, r).Fail?
  {
  }

  lemma AfterLast<T>(items: seq<T>, item: T, next: nat)
    ensures After(items, Done([item], next)) == Done(items + [item], next)
  {
  }

  lemma AfterNothing<T>(r: Parsed<seq<T>>)
    ensures After([], r) == r
  {
    if r.Done? {
      assert [] + r.value == r.value;
    }
  }

  lemma AfterAfter<T>(items: seq<T>, item: T, r: Parsed<seq<T>>)
    ensures After(items, After([item], r)) == After(items + [item], r)
  {
    if r.Done? {
      assert items + ([item] + r.value) == (items + [item]) + r.value;
    }
  }

  /** Stepping back onto a blank instead of standing at the end changes nothing. */
  lemma LandingParses(s: bytes, i: nat, depth: int)
    requires i <= |s|
    ensures SkipBlanks(s, Landing(s, i)) == SkipBlanks(s, i)
    ensures ValueAt(s, Landing(s, i), depth) == ValueAt(s, SkipBlanks(s, i), depth) ||
            (ValueAt(s, Landing(s, i), depth).Fail? && ValueAt(s, SkipBlanks(s, i), depth).Fail?)
    ensures LiteralAt(s, Landing(s, i)) == LiteralAt(s, SkipBlanks(s, i))
    ensures forall b: byte | b > 32 :: ByteIs(s, SkipBlanks(s, i), b) <==> ByteIs(s, Landing(s, i), b)
  {
    hide ElementsAt, MembersAt;
    SkipSplit(s, i, Landing(s, i));
  }

  predicate ByteIs(s: bytes, i: nat, b: byte) {
    i < |s| && s[i] == b
  }

  lemma NothingAtEnd(s: bytes, depth: int)
    ensures ValueAt(s, |s|, depth).Fail? && LiteralAt(s, |s|).None?
  {
  }

  lemma {:induction false} SkipSplit(s: bytes, i: nat, j: nat)
    requires i <= j <= |s| && j <= SkipBlanks(s, i)
    ensures SkipBlanks(s, j) == SkipBlanks(s, i)
    decreases j - i
  {
    if i < j {
      SkipSplit(s, i + 1, j);
    }
  }

  lemma ArrayUnfolded(s: bytes, i: nat, depth: int)
    requires i < |s| && s[i] == LBRACKET
    ensures depth >= NESTING_LIMIT ==> ValueAt(s, i, depth).Fail?
    ensures depth < NESTING_LIMIT ==>
      var j := Landing(s, i + 1);
      if j < |s| && s[j] == RBRACKET then ValueAt(s, i, depth) == Done(Array([]), j + 1)
      else if ElementsAt(s, i + 1, depth + 1).Fail? then ValueAt(s, i, depth).Fail?
      else ValueAt(s, i, depth) ==
             Done(Array(ElementsAt(s, i + 1, depth + 1).value), ElementsAt(s, i + 1, depth + 1).next)
  {
    hide ElementsAt, MembersAt, At, LiteralAt, StrToD;
    NoLiteral(s, i);
    LandingParses(s, i + 1, depth);
    assert ByteIs(s, SkipBlanks(s, i + 1), RBRACKET) == ByteIs(s, Landing(s, i + 1), RBRACKET);
  }

  lemma ObjectUnfolded(s: bytes, i: nat, depth: int)
    requires i < |s| && s[i] == LBRACE
    ensures depth >= NESTING_LIMIT ==> ValueAt(s, i, depth).Fail?
    ensures depth < NESTING_LIMIT ==>
      var j := Landing(s, i + 1);
      if j < |s| && s[j] == RBRACE then ValueAt(s, i, depth) == Done(Object([]), j + 1)
      else if MembersAt(s, i + 1, depth + 1).Fail? then ValueAt(s, i, depth).Fail?
      else ValueAt(s, i, depth) ==
             Done(Object(MembersAt(s, i + 1, depth + 1).value), MembersAt(s, i + 1, depth + 1).next)
  {
    hide ElementsAt, MembersAt, At, LiteralAt, StrToD;
    NoLiteral(s, i);
    LandingParses(s, i + 1, depth);
    assert ByteIs(s, SkipBlanks(s, i + 1), RBRACE) == ByteIs(s, Landing(s, i + 1), RBRACE);
  }

  /** The first element may be looked for from where the check for an empty list stopped. */
  lemma SameElements(s: bytes, i: nat, depth: int)
    requires i <= |s|
    ensures ElementsAt(s, Landing(s, i), depth) == ElementsAt(s, i, depth)
  {
    hide ValueAt;
    LandingParses(s, i, depth);
  }

  lemma SameMembers(s: bytes, i: nat, depth: int)
    requires i <= |s|
    ensures MembersAt(s, Landing(s, i), depth) == MembersAt(s, i, depth)
  {
    hide ValueAt, LiteralAt, Landing, SkipBlanks;
    LandingParses(s, i, depth);
    assert MemberAt(s, Landing(s, i), depth) == MemberAt(s, i, depth);
  }

  lemma ElementUnfolded(s: bytes, i: nat, depth: int)
    requires i <= |s|
    ensures var v := ValueAt(s, Landing(s, i), depth);
      if v.Fail? then ElementsAt(s, i, depth).Fail?
      else
        var k := Landing(s, v.next);
        if k < |s| && s[k] == COMMA then
          ElementsAt(s, i, depth) == After([v.value], ElementsAt(s, k + 1, depth))
        else if k < |s| && s[k] == RBRACKET then ElementsAt(s, i, depth) == Done([v.value], k + 1)
        else ElementsAt(s, i, depth).Fail?
  {
    hide ValueAt;
    LandingParses(s, i, depth);
    var v := ValueAt(s, Landing(s, i), depth);
    if v.Done? {
      LandingParses(s, v.next, depth);
      assert ByteIs(s, SkipBlanks(s, v.next), COMMA) == ByteIs(s, Landing(s, v.next), COMMA);
      assert ByteIs(s, SkipBlanks(s, v.next), RBRACKET) == ByteIs(s, Landing(s, v.next), RBRACKET);
    }
  }

  lemma MemberUnfolded(s: bytes, i: nat, depth: int)
    requires i <= |s|
    ensures var key := LiteralAt(s, Landing(s, i));
      if key.None? then MemberAt(s, i, depth).Fail?
      else
        var c := Landing(s, key.value.1);
        if c == |s| || s[c] != COLON then MemberAt(s, i, depth).Fail?
        else
          var v := ValueAt(s, Landing(s, c + 1), depth);
          if v.Fail? then MemberAt(s, i, depth).Fail?
          else MemberAt(s, i, depth) == Done(Member(key.value.0, v.value), v.next)
  {
    hide ValueAt, LiteralAt;
    LandingParses(s, i, depth);
    var key := LiteralAt(s, Landing(s, i));
    if key.Some? {
      LandingParses(s, key.value.1, depth);
      var c := Landing(s, key.value.1);
      assert ByteIs(s, SkipBlanks(s, key.value.1), COLON) == ByteIs(s, c, COLON);
      if c < |s| && s[c] == COLON {
        LandingParses(s, c + 1, depth);
      }
    }
  }

  lemma MembersUnfolded(s: bytes, i: nat, depth: int)
    requires i <= |s|
    ensures var m := MemberAt(s, i, depth);
      if m.Fail? then MembersAt(s, i, depth).Fail?
      else
        var k := Landing(s, m.next);
        if k < |s| && s[k] == COMMA then
          MembersAt(s, i, depth) == After([m.value], MembersAt(s, k + 1, depth))
        else if k < |s| && s[k] == RBRACE then MembersAt(s, i, depth) == Done([m.value], k + 1)
        else MembersAt(s, i, depth).Fail?
  {
    hide MemberAt, ValueAt, LiteralAt;
    var m := MemberAt(s, i, depth);
    if m.Done? {
      LandingParses(s, m.next, depth);
      assert ByteIs(s, SkipBlanks(s, m.next), COMMA) == ByteIs(s, Landing(s, m.next), COMMA);
      assert ByteIs(s, SkipBlanks(s, m.next), RBRACE) == ByteIs(s, Landing(s, m.next), RBRACE);
    }
  }

  /** Where buffer_skip_whitespace leaves the offset. */
  function Landing(s: bytes, i: nat): (j: nat)
    requires i <= |s|
    ensures i <= j <= |s|
    ensures i < |s| ==> j < |s|
  {
    var j := SkipBlanks(s, i);
    if j == |s| && i < |s| then j - 1 else j
  }
}
