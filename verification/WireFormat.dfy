/** Fixed-width integers in host byte order (little-endian), and length-prefixed strings. */
module WireFormat {
  import opened BitOps
  import opened Bytes

  const TWO_64 := 0x1_0000_0000_0000_0000

  type u32 = n: int | 0 <= n < TWO_32
  type u64 = n: int | 0 <= n < TWO_64

  /** The low `w` bytes of `n`. */
  function Le(n: nat, w: nat): (b: bytes)
    ensures |b| == w
    decreases w
  {
    if w == 0 then [] else [n % 256] + Le(n / 256, w - 1)
  }

  function LeValue(b: bytes): nat {
    if b == [] then 0 else b[0] + 256 * LeValue(b[1..])
  }

  function Pow256(w: nat): (p: nat)
    ensures p > 0
  {
    if w == 0 then 1 else 256 * Pow256(w - 1)
  }

  lemma Widths()
    ensures Pow256(1) == 256 && Pow256(4) == TWO_32 && Pow256(8) == TWO_64
  {
    assert Pow256(1) == 256;
    assert Pow256(2) == 256 * 256;
    assert Pow256(3) == 256 * Pow256(2);
    assert Pow256(4) == 256 * Pow256(3);
    assert Pow256(5) == 256 * Pow256(4);
    assert Pow256(6) == 256 * Pow256(5);
    assert Pow256(7) == 256 * Pow256(6);
    assert Pow256(8) == 256 * Pow256(7);
  }

  lemma {:induction false} LeRoundTrip(n: nat, w: nat)
    requires n < Pow256(w)
    ensures LeValue(Le(n, w)) == n
    decreases w
  {
    if w > 0 {
      LeRoundTrip(n / 256, w - 1);
      assert Le(n, w)[1..] == Le(n / 256, w - 1);
    }
  }

  /** Low bytes first: byte `k` is the one of weight 256 to the `k`. */
  lemma {:induction false} LowBytesFirst(n: nat, w: nat, k: nat)
    requires k < w
    ensures Le(n, w)[k] == n / Pow256(k) % 256
    decreases w
  {
    if k > 0 {
      LowBytesFirst(n / 256, w - 1, k - 1);
      DivTwice(n, Pow256(k - 1));
    }
  }

  lemma DivTwice(n: nat, p: nat)
    requires p > 0
    ensures n / 256 / p == n / (256 * p)
  {
    var q := n / 256;
    assert n == 256 * (p * (q / p) + q % p) + n % 256;
    assert n == (256 * (q % p) + n % 256) + q / p * (256 * p);
    assert 256 * (q % p) + n % 256 < 256 * p;
    Remainder(n, 256 * p, q / p, 256 * (q % p) + n % 256);
  }

  lemma SmallNumber(n: byte)
    ensures Le(n, 4) == [n, 0, 0, 0] && Le(n, 8) == [n, 0, 0, 0, 0, 0, 0, 0]
  {
    assert Le(0, 0) == [];
    assert Le(0, 1) == [0];
    assert Le(0, 2) == [0, 0];
    assert Le(0, 3) == [0, 0, 0];
    assert Le(0, 4) == [0, 0, 0, 0];
    assert Le(0, 5) == [0, 0, 0, 0, 0];
    assert Le(0, 6) == [0, 0, 0, 0, 0, 0];
    assert Le(0, 7) == [0, 0, 0, 0, 0, 0, 0];
  }

  lemma {:induction false} LeValueBound(b: bytes)
    ensures LeValue(b) < Pow256(|b|)
  {
    if b != [] {
      LeValueBound(b[1..]);
    }
  }

  function U32(n: u32): (b: bytes)
    ensures |b| == 4
  {
    Le(n, 4)
  }

  function U64(n: u64): (b: bytes)
    ensures |b| == 8
  {
    Le(n, 8)
  }

  function U32At(b: bytes, i: nat): (n: u32)
    requires i + 4 <= |b|
  {
    LeValueBound(b[i..i + 4]);
    Widths();
    LeValue(b[i..i + 4])
  }

  function U64At(b: bytes, i: nat): (n: u64)
    requires i + 8 <= |b|
  {
    LeValueBound(b[i..i + 8]);
    Widths();
    LeValue(b[i..i + 8])
  }

  lemma U32IsRead(b: bytes, i: nat, n: u32)
    requires At(b, i, U32(n))
    ensures i + 4 <= |b| && U32At(b, i) == n
  {
    Widths();
    LeRoundTrip(n, 4);
  }

  lemma U64IsRead(b: bytes, i: nat, n: u64)
    requires At(b, i, U64(n))
    ensures i + 8 <= |b| && U64At(b, i) == n
  {
    Widths();
    LeRoundTrip(n, 8);
  }

  // --- Writing through an advancing position ------------------------------------------

  /** Stores the low `w` bytes of `n` at `p`. */
  method PutNumber(buf: array<byte>, p: nat, n: nat, w: nat) returns (q: nat)
    requires p + w <= buf.Length
    modifies buf
    ensures q == p + w && buf[..q] == old(buf[..p]) + Le(n, w)
  {
    q := p;
    var rest := n;
    while q < p + w
      invariant p <= q <= p + w && rest >= 0
      invariant buf[..q] + Le(rest, p + w - q) == old(buf[..p]) + Le(n, w)
    {
      ghost var before := buf[..q];
      buf[q] := rest % 256;
      assert buf[..q + 1] == before + [rest % 256];
      assert before + ([rest % 256] + Le(rest / 256, p + w - q - 1)) == buf[..q + 1] + Le(rest / 256, p + w - q - 1);
      rest := rest / 256;
      q := q + 1;
    }
    assert buf[..q] + [] == buf[..q];
  }

  /** Copies `s` to `p`. */
  method PutBytes(buf: array<byte>, p: nat, s: bytes) returns (q: nat)
    requires p + |s| <= buf.Length
    modifies buf
    ensures q == p + |s| && buf[..q] == old(buf[..p]) + s
  {
    q := p;
    while q < p + |s|
      invariant p <= q <= p + |s|
      invariant buf[..q] == old(buf[..p]) + s[..q - p]
    {
      ghost var before := buf[..q];
      buf[q] := s[q - p];
      assert buf[..q + 1] == before + [s[q - p]];
      assert s[..q + 1 - p] == s[..q - p] + [s[q - p]];
      q := q + 1;
    }
    assert s[..|s|] == s;
  }
}
