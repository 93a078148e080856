/** The bit operators of C on unsigned integers, and what masking and filling in bits amount to. */
module BitOps {

  function BitAnd(a: nat, b: nat): (r: nat)
    ensures r <= a && r <= b
  {
    if a == 0 || b == 0 then 0 else a % 2 * (b % 2) + 2 * BitAnd(a / 2, b / 2)
  }

  function BitOr(a: nat, b: nat): nat {
    if a == 0 then b else if b == 0 then a
    else (if a % 2 + b % 2 > 0 then 1 else 0) + 2 * BitOr(a / 2, b / 2)
  }

  function Pow2(k: nat): (p: nat)
    ensures p > 0
  {
    if k == 0 then 1 else 2 * Pow2(k - 1)
  }

  lemma Powers()
    ensures Pow2(3) == 8 && Pow2(4) == 16 && Pow2(5) == 32 && Pow2(6) == 64 && Pow2(8) == 256 && Pow2(10) == 1024
    ensures Pow2(7) == 128 && Pow2(12) == 4096
  {
    assert Pow2(3) == 2 * Pow2(2) == 4 * Pow2(1) == 8 * Pow2(0);
    assert Pow2(6) == 2 * Pow2(5) == 4 * Pow2(4) == 8 * Pow2(3);
    assert Pow2(8) == 2 * Pow2(7) == 4 * Pow2(6);
    assert Pow2(10) == 2 * Pow2(9) == 4 * Pow2(8);
    assert Pow2(12) == 2 * Pow2(11) == 4 * Pow2(10);
  }

  lemma HalfMod(x: nat, p: nat)
    requires p > 0
    ensures x % (2 * p) == x % 2 + 2 * (x / 2 % p)
  {
    var q, r := x / 2 / p, x / 2 % p;
    assert x == x % 2 + 2 * (q * p + r);
    assert x == (x % 2 + 2 * r) + q * (2 * p);
    Remainder(x, 2 * p, q, x % 2 + 2 * r);
  }

  lemma Remainder(x: nat, d: nat, q: nat, r: nat)
    requires r < d && x == r + q * d
    ensures x % d == r && x / d == q
  {
    var k := x / d - q;
    assert k * d == x / d * d - q * d;
    Multiples(k, d);
  }

  /** Nothing strictly between `-d` and `d` is a multiple of `d`, but for 0. */
  lemma Multiples(k: int, d: int)
    requires d > 0
    ensures k == 0 || k * d >= d || k * d <= -d
  {
    if k > 0 {
      assert k * d == (k - 1) * d + d && (k - 1) * d >= 0;
    } else if k < 0 {
      assert k * d == -((-k - 1) * d) - d && (-k - 1) * d >= 0;
    }
  }

  /** The `k` low bits. */
  function Low(x: nat, k: nat): nat {
    if k == 0 then 0 else x % 2 + 2 * Low(x / 2, k - 1)
  }

  lemma {:induction false} LowIsMod(x: nat, k: nat)
    ensures Low(x, k) == x % Pow2(k)
  {
    if k > 0 {
      LowIsMod(x / 2, k - 1);
      HalfMod(x, Pow2(k - 1));
    }
  }

  lemma {:induction false} AndLowBits(x: nat, k: nat)
    ensures BitAnd(x, Pow2(k) - 1) == Low(x, k)
  {
    hide BitAnd;
    if k == 0 {
      AndNothing(x);
    } else {
      AndLowBits(x / 2, k - 1);
      AndStep(x, Pow2(k - 1) - 1);
    }
  }

  lemma AndLow(x: nat, k: nat)
    ensures BitAnd(x, Pow2(k) - 1) == x % Pow2(k)
  {
    AndLowBits(x, k);
    LowIsMod(x, k);
  }

  lemma AndNothing(x: nat)
    ensures BitAnd(x, 0) == 0
  {
  }

  lemma AndStep(x: nat, n: nat)
    ensures BitAnd(x, 2 * n + 1) == x % 2 + 2 * BitAnd(x / 2, n)
  {
    assert (2 * n + 1) % 2 == 1 && (2 * n + 1) / 2 == n;
  }

  /** Bits set where there were none. */
  lemma {:induction false} OrAbove(a: nat, b: nat, k: nat)
    requires b < Pow2(k)
    ensures BitOr(a * Pow2(k), b) == a * Pow2(k) + b
  {
    hide BitOr;
    if k == 0 {
      OrNothing(a);
    } else {
      var p := Pow2(k - 1);
      assert a * (2 * p) == 2 * (a * p);
      OrStep(a * p, b);
      OrAbove(a, b / 2, k - 1);
    }
  }

  lemma OrNothing(a: nat)
    ensures BitOr(a * 1, 0) == a
  {
  }

  lemma OrStep(m: nat, b: nat)
    ensures BitOr(2 * m, b) == b % 2 + 2 * BitOr(m, b / 2)
  {
    assert 2 * m % 2 == 0 && 2 * m / 2 == m;
  }

  lemma {:induction false} OrCommutes(a: nat, b: nat)
    ensures BitOr(a, b) == BitOr(b, a)
  {
    if a != 0 && b != 0 {
      OrCommutes(a / 2, b / 2);
    }
  }

  /** A mark two places above the low bits is set, and what lies above the low bits goes. */
  lemma {:induction false} MarkLow(x: nat, k: nat)
    ensures BitAnd(BitOr(x, 2 * Pow2(k)), 3 * Pow2(k) - 1) == 2 * Pow2(k) + Low(x, k)
  {
    hide BitAnd, BitOr;
    if k == 0 {
      SecondBit(x);
    } else {
      MarkLow(x / 2, k - 1);
      MarkStep(x, 2 * Pow2(k - 1), 3 * Pow2(k - 1) - 1);
    }
  }

  lemma SecondBit(x: nat)
    ensures BitAnd(BitOr(x, 2), 2) == 2
  {
    assert BitAnd(BitOr(x, 2), 2) == 2 * BitAnd(BitOr(x, 2) / 2, 1);
    assert BitOr(x, 2) / 2 == if x == 0 then 1 else BitOr(x / 2, 1);
  }

  lemma OrDouble(x: nat, m: nat)
    ensures BitOr(x, 2 * m) % 2 == x % 2 && BitOr(x, 2 * m) / 2 == BitOr(x / 2, m)
  {
    hide BitAnd, BitOr;
    OrStep(m, x);
    OrCommutes(x, 2 * m);
    OrCommutes(x / 2, m);
  }

  lemma MarkStep(x: nat, m: nat, n: nat)
    requires m > 0 && n > 0
    ensures BitAnd(BitOr(x, 2 * m), 2 * n + 1) == x % 2 + 2 * BitAnd(BitOr(x / 2, m), n)
  {
    hide BitAnd, BitOr;
    OrDouble(x, m);
    AndStep(BitOr(x, 2 * m), n);
  }

  /** `(x | 0x80) & 0xBF`: six low bits behind the mark of a continuation byte. */
  lemma ContinuationBits(x: nat)
    ensures BitAnd(BitOr(x, 0x80), 0xBF) == 0x80 + x % 64
  {
    Powers();
    MarkLow(x, 6);
    LowIsMod(x, 6);
  }

  /** `x & 0x7F` for the single byte of ASCII. */
  lemma AsciiBits(x: nat)
    requires x < 128
    ensures BitAnd(x, 0x7F) == x
  {
    hide BitAnd;
    Powers();
    AndLow(x, 7);
  }

  /** `(x | mark) & 0xFF` for the marks of first bytes, whose low bits are free. */
  lemma FirstBits(x: nat, mark: nat)
    requires (mark == 0xC0 && x < 32) || (mark == 0xE0 && x < 16) || (mark == 0xF0 && x < 8)
    ensures BitAnd(BitOr(x, mark), 0xFF) == mark + x
  {
    hide BitAnd, BitOr;
    Powers();
    OrCommutes(x, mark);
    if mark == 0xC0 {
      OrAbove(6, x, 5);
    } else if mark == 0xE0 {
      OrAbove(14, x, 4);
    } else {
      OrAbove(30, x, 3);
    }
    AndLow(mark + x, 8);
  }

  /** `((hi & 0x3FF) << 10) | (lo & 0x3FF)`. */
  lemma PairBits(hi: nat, lo: nat)
    ensures BitOr(BitAnd(hi, 0x3FF) * 1024, BitAnd(lo, 0x3FF)) == hi % 1024 * 1024 + lo % 1024
  {
    hide BitAnd, BitOr;
    Powers();
    AndLow(hi, 10);
    AndLow(lo, 10);
    OrAbove(hi % 1024, lo % 1024, 10);
  }

  /** `((a & 0x0F) << 12) | ((b & 0x3F) << 6) | (c & 0x3F)`. */
  lemma ThreeByteBits(a: nat, b: nat, c: nat)
    ensures BitOr(BitOr(BitAnd(a, 0x0F) * 4096, BitAnd(b, 0x3F) * 64), BitAnd(c, 0x3F))
         == a % 16 * 4096 + b % 64 * 64 + c % 64
  {
    hide BitAnd, BitOr;
    Powers();
    AndLow(a, 4);
    AndLow(b, 6);
    AndLow(c, 6);
    OrAbove(a % 16, b % 64 * 64, 12);
    OrAbove(a % 16 * 64 + b % 64, c % 64, 6);
  }
}
