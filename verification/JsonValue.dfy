/** JSON values and the abstract syntax of numbers, as cJSON items hold them. */
module JsonValue {
  import opened Bytes

  /** A cJSON tree. An item's `string` is the key of a member; sibling order is sequence order. */
  datatype Value =
    | Null
    | Bool(b: bool)
    | Number(d: real)
    | String(s: bytes)
    | Array(items: seq<Value>)
    | Object(members: seq<Member>)

  datatype Member = Member(key: bytes, value: Value)

  /** CJSON_NESTING_LIMIT. */
  const NESTING_LIMIT: nat := 1000

  /** Nesting depth: 0 for a scalar, one more than the deepest child for a container. */
  function Nesting(v: Value): (n: nat)
    decreases v, 1
  {
    match v
    case Array(items) => 1 + ItemsNesting(items)
    case Object(members) => 1 + MembersNesting(members)
    case _ => 0
  }

  function ItemsNesting(items: seq<Value>): (n: nat)
    decreases items, 0
  {
    if items == [] then 0
    else Max(Nesting(items[0]), ItemsNesting(items[1..]))
  }

  function MembersNesting(members: seq<Member>): (n: nat)
    decreases members, 0
  {
    if members == [] then 0
    else Max(Nesting(members[0].value), MembersNesting(members[1..]))
  }

  function Max(a: nat, b: nat): nat {
    if a < b then b else a
  }

  // --- Decimal numerals -------------------------------------------------------------

  predicate IsDigit(b: byte) {
    48 <= b <= 57
  }

  predicate AllDigits(ds: bytes) {
    forall k | 0 <= k < |ds| :: IsDigit(ds[k])
  }

  function DigitsValue(ds: bytes): nat
    requires AllDigits(ds)
  {
    if ds == [] then 0
    else 10 * DigitsValue(ds[..|ds| - 1]) + (ds[|ds| - 1] - 48)
  }

  function Pow10(e: int): real
    decreases if e < 0 then -e else e
  {
    if e == 0 then 1.0
    else if e > 0 then 10.0 * Pow10(e - 1)
    else Pow10(e + 1) / 10.0
  }

  /** A numeral cut into its parts; the text of section 6 of RFC 8259 when well formed. */
  datatype Numeral = Numeral(neg: bool, whole: bytes, frac: Option<bytes>, exp: Option<Exponent>)
  datatype Exponent = Exponent(mark: byte, sign: bytes, digits: bytes)

  predicate ValidExponent(x: Exponent) {
    && (x.mark == 101 || x.mark == 69)
    && (x.sign == [] || x.sign == [PLUS] || x.sign == [MINUS])
    && x.digits != [] && AllDigits(x.digits)
  }

  /** number = [ minus ] int [ frac ] [ exp ] */
  predicate ValidNumeral(n: Numeral) {
    && n.whole != [] && AllDigits(n.whole)
    && (|n.whole| == 1 || n.whole[0] != 48)
    && (n.frac.Some? ==> n.frac.value != [] && AllDigits(n.frac.value))
    && (n.exp.Some? ==> ValidExponent(n.exp.value))
  }

  function NumeralText(n: Numeral): bytes {
    SignText(n.neg) + (n.whole + (FracText(n.frac) + ExpText(n.exp)))
  }

  function FracText(f: Option<bytes>): bytes {
    match f
    case None => []
    case Some(ds) => [DOT] + ds
  }

  function ExpText(x: Option<Exponent>): bytes {
    match x
    case None => []
    case Some(e) => [e.mark] + (e.sign + e.digits)
  }

  function Scaled(neg: bool, digits: nat, e: int): real {
    (if neg then -(digits as real) else digits as real) * Pow10(e)
  }

  function FracDigits(f: Option<bytes>): bytes {
    if f.Some? then f.value else []
  }

  function ExpValue(x: Option<Exponent>): int
    requires x.Some? ==> ValidExponent(x.value)
  {
    if x.None? then 0
    else if x.value.sign == [MINUS] then -(DigitsValue(x.value.digits) as int)
    else DigitsValue(x.value.digits) as int
  }

  function SignText(neg: bool): bytes {
    if neg then [MINUS] else []
  }

  /** The number a numeral denotes. */
  function NumeralValue(n: Numeral): real
    requires ValidNumeral(n)
  {
    Scaled(n.neg, DigitsValue(n.whole + FracDigits(n.frac)), ExpValue(n.exp) - |FracDigits(n.frac)|)
  }

  // --- 32-bit integers in decimal (printf "%d") -------------------------------------

  function NatText(n: nat): (t: bytes)
    ensures t != [] && AllDigits(t)
    ensures DigitsValue(t) == n
    ensures n < 10 ==> |t| == 1
    ensures t[0] == 48 ==> n == 0
  {
    if n < 10 then
      assert [48 + n][..0] == [];
      [48 + n]
    else
      var t := NatText(n / 10) + [48 + n % 10];
      assert t[..|t| - 1] == NatText(n / 10);
      t
  }

  function IntNumeral(n: int): (m: Numeral)
    ensures ValidNumeral(m)
  {
    Numeral(n < 0, NatText(if n < 0 then -n else n), None, None)
  }

  lemma IntNumeralValue(n: int)
    ensures NumeralValue(IntNumeral(n)) == n as real
  {
    var m := IntNumeral(n);
    assert m.whole + [] == m.whole;
  }

  predicate IsInt32(d: real) {
    d == d.Floor as real && INT_MIN <= d.Floor <= INT_MAX
  }
}
