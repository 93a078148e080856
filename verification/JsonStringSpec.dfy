/** String literals: what the decoder of cJSON computes, on any bytes, and the grammar of RFC 8259. */
module JsonStringSpec {
  import opened Bytes
  import opened Utf8Encoding

  // --- What the decoder computes ----------------------------------------------------

  /** First scan: the closing quote of a literal whose body starts at `p`. A backslash skips one byte. */
  function ScanEnd(s: bytes, p: nat): (r: Option<nat>)
    ensures r.Some? ==> p <= r.value < |s| && s[r.value] == QUOTE
    decreases |s| - p
  {
    if p >= |s| then None
    else if s[p] == QUOTE then Some(p)
    else if s[p] != BACKSLASH then ScanEnd(s, p + 1)
    else if p + 1 >= |s| then None
    else ScanEnd(s, p + 2)
  }

  /** Number of units (plain bytes or two-byte escapes) the first scan steps over from `p` to `end`. */
  function Units(s: bytes, p: nat, end: nat): nat
    requires end <= |s|
    decreases end - p
  {
    if p >= end then 0
    else 1 + Units(s, if s[p] == BACKSLASH then p + 2 else p + 1, end)
  }

  predicate IsHex(b: byte) {
    48 <= b <= 57 || 65 <= b <= 70 || 97 <= b <= 102
  }

  function HexDigit(b: byte): nat
    requires IsHex(b)
  {
    if b <= 57 then b - 48 else if b <= 70 then b - 55 else b - 87
  }

  predicate IsHex4(h: bytes) {
    |h| == 4 && IsHex(h[0]) && IsHex(h[1]) && IsHex(h[2]) && IsHex(h[3])
  }

  /** The number four hex digits denote; 0 for anything else, as parse_hex4 answers. */
  function Hex4(h: bytes): (n: nat)
    requires |h| == 4
    ensures n <= 0xFFFF
    ensures n > 0 ==> IsHex4(h)
  {
    if IsHex4(h)
    then HexDigit(h[0]) * 4096 + HexDigit(h[1]) * 256 + HexDigit(h[2]) * 16 + HexDigit(h[3])
    else 0
  }

  predicate IsHighSurrogate(n: nat) {
    0xD800 <= n <= 0xDBFF
  }

  predicate IsLowSurrogate(n: nat) {
    0xDC00 <= n <= 0xDFFF
  }

  function PairCodepoint(hi: nat, lo: nat): nat {
    0x10000 + hi % 1024 * 1024 + lo % 1024
  }

  /** The code point of a \u escape at `p` and the length of the escape, inside a body ending at `end`. */
  function EscapeAt(s: bytes, p: nat, end: nat): (r: Option<(nat, nat)>)
    requires p <= end <= |s|
    ensures r.Some? ==> r.value.0 <= 0x10FFFF && (r.value.1 == 6 || r.value.1 == 12) && p + r.value.1 <= end
  {
    if end - p < 6 then None
    else
      var first := Hex4(s[p + 2..p + 6]);
      if IsLowSurrogate(first) then None
      else if !IsHighSurrogate(first) then Some((first, 6))
      else if end - (p + 6) < 6 then None
      else if s[p + 6] != BACKSLASH || s[p + 7] != 117 then None
      else
        var second := Hex4(s[p + 8..p + 12]);
        if !IsLowSurrogate(second) then None
        else Some((PairCodepoint(first, second), 12))
  }

  /** Two-character escapes; None for any other character after the backslash. */
  function SimpleEscape(c: byte): Option<byte> {
    if c == 98 then Some(8)            // b
    else if c == 102 then Some(12)     // f
    else if c == 110 then Some(LF)     // n
    else if c == 114 then Some(CR)     // r
    else if c == 116 then Some(TAB)    // t
    else if c == QUOTE || c == BACKSLASH || c == SLASH then Some(c)
    else None
  }

  /** Bytes written by the second pass from `p`, up to success or failure, and where it stopped. */
  datatype Decoded = Decoded(out: bytes, ok: bool, stop: nat)

  function DecodeBody(s: bytes, p: nat, end: nat): (d: Decoded)
    requires end < |s|
    decreases end - p
  {
    if p >= end then Decoded([], true, p)
    else if s[p] != BACKSLASH then Prepend([s[p]], DecodeBody(s, p + 1, end))
    else if s[p + 1] == 117 then
      var e := EscapeAt(s, p, end);
      if e.None? then Decoded([], false, p)
      else Prepend(Utf8Bytes(e.value.0), DecodeBody(s, p + e.value.1, end))
    else
      var c := SimpleEscape(s[p + 1]);
      if c.None? then Decoded([], false, p)
      else Prepend([c.value], DecodeBody(s, p + 2, end))
  }

  function Prepend(a: bytes, d: Decoded): Decoded {
    d.(out := a + d.out)
  }

  /** The literal at `p`: its bytes and the position after its closing quote. */
  function LiteralAt(s: bytes, p: nat): (r: Option<(bytes, nat)>)
    ensures r.Some? ==> p + 2 <= r.value.1 <= |s|
  {
    if p >= |s| || s[p] != QUOTE then None
    else
      var end := ScanEnd(s, p + 1);
      if end.None? then None
      else
        var d := DecodeBody(s, p + 1, end.value);
        if d.ok then Some((d.out, end.value + 1)) else None
  }

  // --- The output always fits --------------------------------------------------------

  /**
    * The size computed by the first scan bounds what the second pass writes, also on its way to a
    * failure. `b` is the next unit boundary of the first scan: `p` itself while the passes are in
    * step, `p + 1` when an invalid escape left the second pass inside an escape of the first.
    */
  lemma {:induction false} DecodedFits(s: bytes, p: nat, b: nat, end: nat)
    requires end < |s| && ScanEnd(s, b) == Some(end)
    requires p <= b <= p + 1
    ensures |DecodeBody(s, p, end).out| <= Units(s, b, end) + (b - p)
    decreases end - p
  {
    if p >= end {
    } else if s[p] != BACKSLASH {
      DecodedFits(s, p + 1, if b == p then p + 1 else b, end);
    } else if s[p + 1] == 117 {
      var e := EscapeAt(s, p, end);
      if e.Some? {
        var q := p + e.value.1;
        var b' := SkipUnits(s, b, q, end);
        DecodedFits(s, q, b', end);
        assert |Utf8Bytes(e.value.0)| == 4 ==> e.value.1 == 12;
      }
    } else if SimpleEscape(s[p + 1]).Some? && p + 2 <= end {
      var b' := SkipUnits(s, b, p + 2, end);
      DecodedFits(s, p + 2, b', end);
    }
  }

  /** The first boundary at or after `q`; every unit stepped over covers at most two bytes. */
  lemma {:induction false} SkipUnits(s: bytes, b: nat, q: nat, end: nat) returns (b': nat)
    requires end < |s| && ScanEnd(s, b) == Some(end)
    requires b <= q <= end
    ensures q <= b' <= q + 1 && ScanEnd(s, b') == Some(end)
    ensures b' - b <= 2 * (Units(s, b, end) - Units(s, b', end))
    decreases q - b
  {
    if b == q {
      b' := b;
    } else {
      var next := if s[b] == BACKSLASH then b + 2 else b + 1;
      if next <= q {
        b' := SkipUnits(s, next, q, end);
      } else {
        b' := next;
      }
    }
  }
}
