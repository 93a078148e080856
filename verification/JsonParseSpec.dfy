/**
  * The value a text denotes to cJSON, by recursion on positions: no step-backs, no depth counter
  * that is only restored on success, no temporary copies. The parser methods refine it.
  */
module JsonParseSpec {
  import opened Bytes
  import opened JsonValue
  import opened JsonStringSpec

  const NULL_TEXT: bytes := [110, 117, 108, 108]
  const FALSE_TEXT: bytes := [102, 97, 108, 115, 101]
  const TRUE_TEXT: bytes := [116, 114, 117, 101]

  /** cJSON takes every byte up to 32 for white space, the terminating NUL included. */
  predicate IsBlank(b: byte) {
    b <= 32
  }

  function SkipBlanks(s: bytes, i: nat): (j: nat)
    requires i <= |s|
    ensures i <= j <= |s|
    ensures forall k | i <= k < j :: IsBlank(s[k])
    ensures j < |s| ==> !IsBlank(s[j])
    decreases |s| - i
  {
    if i < |s| && IsBlank(s[i]) then SkipBlanks(s, i + 1) else i
  }

  // --- Numbers: strtod on the longest run of number characters ----------------------

  predicate IsNumberChar(b: byte) {
    IsDigit(b) || b == PLUS || b == MINUS || b == 101 || b == 69 || b == DOT
  }

  function RunEnd(s: bytes, i: nat): (j: nat)
    requires i <= |s|
    ensures i <= j <= |s|
    ensures forall k | i <= k < j :: IsNumberChar(s[k])
    ensures j < |s| ==> !IsNumberChar(s[j])
    decreases |s| - i
  {
    if i < |s| && IsNumberChar(s[i]) then RunEnd(s, i + 1) else i
  }

  function DigitsEnd(t: bytes, i: nat): (j: nat)
    requires i <= |t|
    ensures i <= j <= |t|
    ensures AllDigits(t[i..j])
    ensures j < |t| ==> !IsDigit(t[j])
    decreases |t| - i
  {
    if i < |t| && IsDigit(t[i]) then
      var j := DigitsEnd(t, i + 1);
      assert t[i..j] == [t[i]] + t[i + 1..j];
      j
    else i
  }

  predicate IsSign(t: bytes, i: nat) {
    i < |t| && (t[i] == PLUS || t[i] == MINUS)
  }

  /** End of the exponent part at `i` and its value; nothing is consumed unless a digit follows. */
  function ExponentAt(t: bytes, i: nat): (r: (nat, int))
    requires i <= |t|
    ensures i <= r.0 <= |t|
  {
    if i < |t| && (t[i] == 101 || t[i] == 69) then
      var j := if IsSign(t, i + 1) then i + 2 else i + 1;
      var k := DigitsEnd(t, j);
      if k == j then (i, 0)
      else (k, if t[i + 1] == MINUS then -(DigitsValue(t[j..k]) as int) else DigitsValue(t[j..k]) as int)
    else (i, 0)
  }

  /**
    * strtod in the C locale on a text of number characters: the length of the longest prefix that is a
    * decimal numeral and its exact value, or None when there is no such prefix.
    */
  function StrToD(t: bytes): (r: Option<(nat, real)>)
    ensures r.Some? ==> 0 < r.value.0 <= |t|
  {
    var i0 := if IsSign(t, 0) then 1 else 0;
    var i1 := DigitsEnd(t, i0);
    var dot := i1 < |t| && t[i1] == DOT;
    var f0 := if dot then i1 + 1 else i1;
    var i2 := if dot then DigitsEnd(t, f0) else i1;
    if i1 == i0 && i2 == f0 then None
    else
      var (end, e) := ExponentAt(t, i2);
      Some((end, Scaled(i0 == 1 && t[0] == MINUS, DigitsValue(Glue(t[i0..i1], t[f0..i2])), e - (i2 - f0))))
  }

  function Glue(a: bytes, b: bytes): (c: bytes)
    requires AllDigits(a) && AllDigits(b)
    ensures AllDigits(c) && c == a + b
  {
    a + b
  }

  // --- Values ------------------------------------------------------------------------

  datatype Parsed<+T> = Fail | Done(value: T, next: nat)

  /**
    * The value that starts at `i` (no leading blanks), nested `depth` containers deep. Parsing starts at
    * depth 0; a negative depth stands for a larger limit.
    */
  function ValueAt(s: bytes, i: nat, depth: int): (r: Parsed<Value>)
    requires i <= |s|
    ensures r.Done? ==> i < r.next <= |s|
    decreases |s| - i, 0
  {
    if At(s, i, NULL_TEXT) then Done(Null, i + 4)
    else if At(s, i, FALSE_TEXT) then Done(Bool(false), i + 5)
    else if At(s, i, TRUE_TEXT) then Done(Bool(true), i + 4)
    else if i == |s| then Fail
    else if s[i] == QUOTE then
      match LiteralAt(s, i)
      case None => Fail
      case Some((t, next)) => Done(String(t), next)
    else if s[i] == MINUS || IsDigit(s[i]) then
      match StrToD(s[i..RunEnd(s, i)])
      case None => Fail
      case Some((n, d)) => Done(Number(d), i + n)
    else if s[i] == LBRACKET && depth < NESTING_LIMIT then
      var j := SkipBlanks(s, i + 1);
      if j < |s| && s[j] == RBRACKET then Done(Array([]), j + 1)
      else
        match ElementsAt(s, i + 1, depth + 1)
        case Fail => Fail
        case Done(items, next) => Done(Array(items), next)
    else if s[i] == LBRACE && depth < NESTING_LIMIT then
      var j := SkipBlanks(s, i + 1);
      if j < |s| && s[j] == RBRACE then Done(Object([]), j + 1)
      else
        match MembersAt(s, i + 1, depth + 1)
        case Fail => Fail
        case Done(members, next) => Done(Object(members), next)
    else Fail
  }

  /** value *( , value ) ] with blanks anywhere between; `i` is just after the bracket or comma. */
  function ElementsAt(s: bytes, i: nat, depth: int): (r: Parsed<seq<Value>>)
    requires i <= |s|
    ensures r.Done? ==> i < r.next <= |s| && r.value != []
    decreases |s| - i, 1
  {
    var v := ValueAt(s, SkipBlanks(s, i), depth);
    if v.Fail? then Fail
    else
      var k := SkipBlanks(s, v.next);
      if k < |s| && s[k] == COMMA then
        match ElementsAt(s, k + 1, depth)
        case Fail => Fail
        case Done(rest, next) => Done([v.value] + rest, next)
      else if k < |s| && s[k] == RBRACKET then Done([v.value], k + 1)
      else Fail
  }

  /** key : value *( , key : value ) } */
  function MembersAt(s: bytes, i: nat, depth: int): (r: Parsed<seq<Member>>)
    requires i <= |s|
    ensures r.Done? ==> i < r.next <= |s| && r.value != []
    decreases |s| - i, 1
  {
    var m := MemberAt(s, i, depth);
    if m.Fail? then Fail
    else
      var k := SkipBlanks(s, m.next);
      if k < |s| && s[k] == COMMA then
        match MembersAt(s, k + 1, depth)
        case Fail => Fail
        case Done(rest, next) => Done([m.value] + rest, next)
      else if k < |s| && s[k] == RBRACE then Done([m.value], k + 1)
      else Fail
  }

  function MemberAt(s: bytes, i: nat, depth: int): (r: Parsed<Member>)
    requires i <= |s|
    ensures r.Done? ==> i < r.next <= |s|
    decreases |s| - i, 0
  {
    var key := LiteralAt(s, SkipBlanks(s, i));
    if key.None? then Fail
    else
      var c := SkipBlanks(s, key.value.1);
      if c == |s| || s[c] != COLON then Fail
      else
        var v := ValueAt(s, SkipBlanks(s, c + 1), depth);
        if v.Fail? then Fail else Done(Member(key.value.0, v.value), v.next)
  }

  /** A literal name starts with its own first byte. */
  lemma NoLiteral(s: bytes, i: nat)
    requires i < |s|
    ensures s[i] != 110 ==> !At(s, i, NULL_TEXT)
    ensures s[i] != 102 ==> !At(s, i, FALSE_TEXT)
    ensures s[i] != 116 ==> !At(s, i, TRUE_TEXT)
  {
    if At(s, i, NULL_TEXT) { AtIndex(s, i, NULL_TEXT, 0); }
    if At(s, i, FALSE_TEXT) { AtIndex(s, i, FALSE_TEXT, 0); }
    if At(s, i, TRUE_TEXT) { AtIndex(s, i, TRUE_TEXT, 0); }
  }

  // --- Whole texts -------------------------------------------------------------------

  const BOM: bytes := [0xEF, 0xBB, 0xBF]

  function AfterBom(s: bytes): (i: nat)
    ensures i <= |s|
  {
    if 4 < |s| && s[..3] == BOM then 3 else 0
  }

  /** cJSON_ParseWithLengthOpts on the whole buffer, its NUL included if it has one. */
  function ParseBuffer(s: bytes, requireNul: bool): Option<Value> {
    if s == [] then None
    else
      var v := ValueAt(s, SkipBlanks(s, AfterBom(s)), 0);
      if v.Fail? then None
      else if requireNul && !(SkipBlanks(s, v.next) == |s| && v.next < |s| && s[|s| - 1] == 0) then None
      else Some(v.value)
  }

  /** cJSON_Parse: the text is a C string. */
  function Parse(text: bytes): Option<Value> {
    ParseBuffer(text + [0], false)
  }
}
