/** Bytes, byte strings, and the position predicate the parser proofs are written with. */
module Bytes {

  type byte = b: int | 0 <= b < 256

  /** A C string without its terminator, or a raw buffer. */
  type bytes = seq<byte>

  datatype Option<+T> = None | Some(value: T)

  /** Largest value of a 32-bit signed int (INT_MAX). */
  const INT_MAX := 0x7FFF_FFFF
  const INT_MIN := -0x8000_0000
  /** Number of values of a uint32_t. */
  const TWO_32 := 0x1_0000_0000

  const TAB: byte := 9
  const LF: byte := 10
  const CR: byte := 13
  const SPACE: byte := 32
  const QUOTE: byte := 34
  const COMMA: byte := 44
  const MINUS: byte := 45
  const PLUS: byte := 43
  const DOT: byte := 46
  const SLASH: byte := 47
  const COLON: byte := 58
  const LBRACKET: byte := 91
  const BACKSLASH: byte := 92
  const RBRACKET: byte := 93
  const LBRACE: byte := 123
  const RBRACE: byte := 125

  /** What is left of a NULL string when it is read as text, and of an empty one when it is kept as a pointer. */
  function OrEmpty(o: Option<bytes>): bytes {
    if o.None? then [] else o.value
  }

  function NonEmpty(o: Option<bytes>): Option<bytes> {
    if o == Some([]) then None else o
  }

  /** At most the first `n` bytes. */
  function Upto(s: bytes, n: nat): bytes {
    if |s| > n then s[..n] else s
  }

  lemma Assoc<T>(a: seq<T>, b: seq<T>, c: seq<T>)
    ensures (a + b) + c == a + (b + c)
  {
  }

  /** A C string cannot hold the byte 0. */
  predicate NulFree(s: bytes) {
    0 !in s
  }

  /** What a C program sees of a buffer: the bytes before the first NUL. */
  function CString(s: bytes): (t: bytes)
    ensures NulFree(t) && t <= s
    ensures |t| < |s| ==> s[|t|] == 0
  {
    if s == [] || s[0] == 0 then [] else [s[0]] + CString(s[1..])
  }

  lemma {:induction false} CStringWhole(s: bytes)
    requires NulFree(s)
    ensures CString(s) == s
  {
    if s != [] {
      CStringWhole(s[1..]);
      assert s == [s[0]] + s[1..];
    }
  }

  function Ascii(s: string): (b: bytes)
    ensures |b| == |s|
  {
    seq(|s|, i requires 0 <= i < |s| => s[i] as int % 256)
  }

  /** `t` occurs in `s` at position `i`. */
  predicate At(s: bytes, i: nat, t: bytes) {
    i + |t| <= |s| && s[i..i + |t|] == t
  }

  /** An occurrence of a concatenation is two adjacent occurrences. */
  lemma AtSplit(s: bytes, i: nat, a: bytes, b: bytes)
    requires At(s, i, a + b)
    ensures At(s, i, a) && At(s, i + |a|, b)
  {
    var t := s[i..i + |a + b|];
    assert t[..|a|] == a && t[|a|..] == b;
    assert s[i..i + |a|] == t[..|a|];
    assert s[i + |a|..i + |a| + |b|] == t[|a|..];
  }

  lemma AtHead(s: bytes, i: nat, c: byte, b: bytes)
    requires At(s, i, [c] + b)
    ensures i < |s| && s[i] == c && At(s, i + 1, b)
  {
    AtSplit(s, i, [c], b);
    assert s[i] == s[i..i + 1][0];
  }

  lemma AtIndex(s: bytes, i: nat, t: bytes, k: nat)
    requires At(s, i, t) && k < |t|
    ensures s[i + k] == t[k]
  {
    assert s[i..i + |t|][k] == s[i + k];
  }

  lemma AtWhole(t: bytes)
    ensures At(t, 0, t)
  {
    assert t[0..|t|] == t;
  }

  /** An occurrence read backwards: what is there is the slice. */
  lemma AtSlice(s: bytes, i: nat, t: bytes)
    requires At(s, i, t)
    ensures i + |t| <= |s| && s[i..i + |t|] == t
  {
  }
}
