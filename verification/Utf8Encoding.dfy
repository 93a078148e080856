/** UTF-8 as section 3 of RFC 3629 defines it, with a reference decoder (section 4). */
module Utf8Encoding {
  import opened Bytes

  predicate IsSurrogate(cp: nat) {
    0xD800 <= cp <= 0xDFFF
  }

  /** A Unicode scalar value. */
  predicate IsScalar(cp: nat) {
    cp <= 0x10FFFF && !IsSurrogate(cp)
  }

  /** Number of octets, from the first table of section 3. */
  function Utf8Length(cp: nat): (n: nat)
    requires cp <= 0x10FFFF
    ensures 1 <= n <= 4
  {
    if cp < 0x80 then 1 else if cp < 0x800 then 2 else if cp < 0x10000 then 3 else 4
  }

  /** The octets of a code point; the bits of the number fill the x's of the table, low bits last. */
  function Utf8Bytes(cp: nat): (t: bytes)
    requires cp <= 0x10FFFF
    ensures |t| == Utf8Length(cp)
  {
    if cp < 0x80 then [cp]
    else if cp < 0x800 then [0xC0 + cp / 64, 0x80 + cp % 64]
    else if cp < 0x10000 then [0xE0 + cp / 4096, 0x80 + cp / 64 % 64, 0x80 + cp % 64]
    else [0xF0 + cp / 262144, 0x80 + cp / 4096 % 64, 0x80 + cp / 64 % 64, 0x80 + cp % 64]
  }

  predicate IsTail(b: byte) {
    0x80 <= b <= 0xBF
  }

  /** One more group of six low bits. */
  function Join64(hi: nat, lo: nat): nat {
    hi * 64 + lo
  }

  /** Reference decoder: the byte-range grammar of section 4 of RFC 3629. */
  function DecodeUtf8(t: bytes): Option<nat> {
    if |t| == 1 && t[0] <= 0x7F then
      Some(t[0])
    else if |t| == 2 && 0xC2 <= t[0] <= 0xDF && IsTail(t[1]) then
      Some(Join64(t[0] - 0xC0, t[1] - 0x80))
    else if |t| == 3 && 0xE0 <= t[0] <= 0xEF && IsTail(t[1]) && IsTail(t[2])
            && (t[0] == 0xE0 ==> 0xA0 <= t[1]) && (t[0] == 0xED ==> t[1] <= 0x9F) then
      Some(Join64(Join64(t[0] - 0xE0, t[1] - 0x80), t[2] - 0x80))
    else if |t| == 4 && 0xF0 <= t[0] <= 0xF4 && IsTail(t[1]) && IsTail(t[2]) && IsTail(t[3])
            && (t[0] == 0xF0 ==> 0x90 <= t[1]) && (t[0] == 0xF4 ==> t[1] <= 0x8F) then
      Some(Join64(Join64(Join64(t[0] - 0xF0, t[1] - 0x80), t[2] - 0x80), t[3] - 0x80))
    else
      None
  }

  /** The decoder is the inverse of the encoder, and accepts nothing else. */
  lemma DecodeInvertsEncode(cp: nat)
    requires IsScalar(cp)
    ensures DecodeUtf8(Utf8Bytes(cp)) == Some(cp)
  {
    if cp >= 0x10000 {
      FourBytes(cp);
    } else {
      assert cp == cp / 64 * 64 + cp % 64;
      assert cp / 64 == cp / 4096 * 64 + cp / 64 % 64;
    }
  }

  lemma FourBytes(cp: nat)
    requires 0x10000 <= cp <= 0x10FFFF
    ensures DecodeUtf8(Utf8Bytes(cp)) == Some(cp)
  {
    assert cp == cp / 64 * 64 + cp % 64;
    assert cp / 64 == cp / 4096 * 64 + cp / 64 % 64;
    assert cp / 4096 == cp / 262144 * 64 + cp / 4096 % 64;
  }

  lemma EncodeInvertsDecode(t: bytes)
    requires DecodeUtf8(t).Some?
    ensures IsScalar(DecodeUtf8(t).value)
    ensures Utf8Bytes(DecodeUtf8(t).value) == t
  {
    var cp := DecodeUtf8(t).value;
    if |t| == 1 {
      assert t == [t[0]];
    } else if |t| == 2 {
      assert t == [t[0], t[1]];
      Digits64(t[0] - 0xC0, t[1] - 0x80);
    } else if |t| == 3 {
      assert t == [t[0], t[1], t[2]];
      var hi := Join64(t[0] - 0xE0, t[1] - 0x80);
      Digits64(t[0] - 0xE0, t[1] - 0x80);
      Digits64(hi, t[2] - 0x80);
      assert cp / 4096 == t[0] - 0xE0;
    } else {
      FourDecoded(t);
    }
  }

  lemma FourDecoded(t: bytes)
    requires |t| == 4 && DecodeUtf8(t).Some?
    ensures IsScalar(DecodeUtf8(t).value)
    ensures Utf8Bytes(DecodeUtf8(t).value) == t
  {
    var cp := DecodeUtf8(t).value;
    assert t == [t[0], t[1], t[2], t[3]];
    var h1 := Join64(t[0] - 0xF0, t[1] - 0x80);
    var h2 := Join64(h1, t[2] - 0x80);
    Digits64(t[0] - 0xF0, t[1] - 0x80);
    Digits64(h1, t[2] - 0x80);
    Digits64(h2, t[3] - 0x80);
    assert cp / 4096 == h1 && cp / 262144 == t[0] - 0xF0;
  }

  lemma Digits64(hi: nat, lo: nat)
    requires lo < 64
    ensures (hi * 64 + lo) / 64 == hi && (hi * 64 + lo) % 64 == lo
  {
  }
}
