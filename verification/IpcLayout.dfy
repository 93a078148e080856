/** The payload layouts as ipc.h lists them, field by field, and a reader that knows nothing but such a list. */
module IpcLayout {
  import opened Bytes
  import opened WireFormat
  import opened IpcPayloads

  /** A number of so many bytes, or a length of four bytes and as many bytes of text. */
  datatype Shape = Number(width: nat) | Text

  datatype Content = Value(n: nat) | Bytes(s: bytes)

  /** The fields of `b`, which must be taken up by them. */
  function FieldsOf(shapes: seq<Shape>, b: bytes): Option<seq<Content>>
    decreases |shapes|
  {
    if shapes == [] then if b == [] then Some([]) else None
    else
      match shapes[0]
      case Number(w) =>
        if |b| < w then None else Behind(Value(LeValue(b[..w])), FieldsOf(shapes[1..], b[w..]))
      case Text =>
        if |b| < 4 then None
        else
          var end := 4 + LeValue(b[..4]);
          if |b| < end then None else Behind(Bytes(b[4..end]), FieldsOf(shapes[1..], b[end..]))
  }

  function Behind(f: Content, rest: Option<seq<Content>>): Option<seq<Content>> {
    if rest.None? then None else Some([f] + rest.value)
  }

  /** The layouts; a request repeats its third and fourth field for every message. */
  function ShapesOf(m: Payload): seq<Shape> {
    match m
    case ReqSend(_, turns, _, _) => [Number(4), Number(4)] + (TurnShapes(|turns|) + [Text, Text])
    case RepFinal(_, _, _) => [Number(4), Text, Text]
    case WorkerStart(_, _, _) => [Number(8), Text, Text]
    case SessionRename(_, _) => [Number(4), Text]
    case WorkerReq(_, _, _) => [Number(4), Text, Text]
    case WorkerRep(_, _) => [Number(1), Text]
    case ApprovalReq(_, _) => [Number(8), Text]
    case ApprovalRep(_, _) => [Number(8), Number(1)]
  }

  function TurnShapes(n: nat): seq<Shape> {
    if n == 0 then [] else [Number(1), Text] + TurnShapes(n - 1)
  }

  function Flag(b: bool): nat {
    if b then 1 else 0
  }

  /** What stands in each field, a NULL string as an empty one. */
  function ContentsOf(m: Payload): seq<Content> {
    match m
    case ReqSend(session, turns, model, provider) =>
      [Value(session), Value(|turns|)]
      + (TurnContents(turns) + [Bytes(OrEmpty(model)), Bytes(OrEmpty(provider))])
    case RepFinal(session, content, reasoning) =>
      [Value(session), Bytes(OrEmpty(content)), Bytes(OrEmpty(reasoning))]
    case WorkerStart(parent, model, description) =>
      [Value(parent), Bytes(OrEmpty(model)), Bytes(OrEmpty(description))]
    case SessionRename(session, topic) => [Value(session), Bytes(OrEmpty(topic))]
    case WorkerReq(workerType, op, args) => [Value(workerType), Bytes(OrEmpty(op)), Bytes(OrEmpty(args))]
    case WorkerRep(success, result) => [Value(Flag(success)), Bytes(OrEmpty(result))]
    case ApprovalReq(reqCorr, description) => [Value(reqCorr), Bytes(OrEmpty(description))]
    case ApprovalRep(reqCorr, approved) => [Value(reqCorr), Value(Flag(approved))]
  }

  function TurnContents(turns: seq<Turn>): seq<Content> {
    if turns == [] then [] else [Value(turns[0].isUser), Bytes(turns[0].text)] + TurnContents(turns[1..])
  }

  lemma NumberFirst(w: nat, n: nat, shapes: seq<Shape>, rest: bytes)
    requires n < Pow256(w)
    ensures FieldsOf([Number(w)] + shapes, Le(n, w) + rest) == Behind(Value(n), FieldsOf(shapes, rest))
  {
    var b := Le(n, w) + rest;
    LeRoundTrip(n, w);
    assert b[..w] == Le(n, w) && b[w..] == rest;
    assert ([Number(w)] + shapes)[1..] == shapes;
  }

  lemma TextFirst(s: bytes, shapes: seq<Shape>, rest: bytes)
    requires |s| < TWO_32
    ensures FieldsOf([Text] + shapes, Prefixed(s) + rest) == Behind(Bytes(s), FieldsOf(shapes, rest))
  {
    hide Le;
    var b := Prefixed(s) + rest;
    Widths();
    LeRoundTrip(|s|, 4);
    assert b[..4] == U32(|s|);
    assert b[4..4 + |s|] == s && b[4 + |s|..] == rest;
    assert ([Text] + shapes)[1..] == shapes;
  }

  lemma LastText(s: bytes)
    requires |s| < TWO_32
    ensures FieldsOf([Text], Prefixed(s)) == Some([Bytes(s)])
  {
    TextFirst(s, [], []);
    assert Prefixed(s) + [] == Prefixed(s);
    assert [Text] + [] == [Text] && [Bytes(s)] + [] == [Bytes(s)];
    Nothing();
  }

  lemma TwoTexts(s: bytes, t: bytes)
    requires |s| < TWO_32 && |t| < TWO_32
    ensures FieldsOf([Text, Text], Prefixed(s) + Prefixed(t)) == Some([Bytes(s), Bytes(t)])
  {
    LastText(t);
    TextFirst(s, [Text], Prefixed(t));
    assert [Text] + [Text] == [Text, Text];
    assert [Bytes(s)] + [Bytes(t)] == [Bytes(s), Bytes(t)];
  }

  lemma {:induction false} TurnsFirst(turns: seq<Turn>, shapes: seq<Shape>, rest: bytes, contents: seq<Content>)
    requires TurnsFit(turns) && FieldsOf(shapes, rest) == Some(contents)
    ensures FieldsOf(TurnShapes(|turns|) + shapes, TurnsBytes(turns) + rest) == Some(TurnContents(turns) + contents)
    decreases |turns|
  {
    hide FieldsOf, Prefixed;
    if turns == [] {
      assert [] + shapes == shapes && [] + rest == rest && [] + contents == contents;
    } else {
      var t, more := turns[0], TurnShapes(|turns| - 1) + shapes;
      var tail := TurnsBytes(turns[1..]) + rest;
      TurnsFirst(turns[1..], shapes, rest, contents);
      TextFirst(t.text, more, tail);
      ByteFirst(t.isUser, [Text] + more, Prefixed(t.text) + tail);
      var text, others := Prefixed(t.text), TurnsBytes(turns[1..]);
      Assoc([t.isUser] + text, others, rest);
      Assoc([t.isUser], text, tail);
      assert TurnShapes(|turns|) + shapes == [Number(1)] + ([Text] + more);
      var after := TurnContents(turns[1..]) + contents;
      assert TurnContents(turns) + contents == [Value(t.isUser)] + ([Bytes(t.text)] + after);
    }
  }

  lemma ByteFirst(n: byte, shapes: seq<Shape>, rest: bytes)
    ensures FieldsOf([Number(1)] + shapes, [n] + rest) == Behind(Value(n), FieldsOf(shapes, rest))
  {
    Widths();
    OneByte(n);
    NumberFirst(1, n, shapes, rest);
  }

  lemma U32First(n: u32, shapes: seq<Shape>, rest: bytes)
    ensures FieldsOf([Number(4)] + shapes, U32(n) + rest) == Behind(Value(n), FieldsOf(shapes, rest))
  {
    Widths();
    NumberFirst(4, n, shapes, rest);
  }

  lemma NumberAndText(w: nat, n: nat, s: bytes)
    requires n < Pow256(w) && |s| < TWO_32
    ensures FieldsOf([Number(w), Text], Le(n, w) + Prefixed(s)) == Some([Value(n), Bytes(s)])
  {
    hide FieldsOf, Le, Prefixed, Pow256;
    LastText(s);
    NumberFirst(w, n, [Text], Prefixed(s));
    assert [Number(w)] + [Text] == [Number(w), Text];
    assert [Value(n)] + [Bytes(s)] == [Value(n), Bytes(s)];
  }

  lemma NumberAndTexts(w: nat, n: nat, s: bytes, t: bytes)
    requires n < Pow256(w) && |s| < TWO_32 && |t| < TWO_32
    ensures FieldsOf([Number(w), Text, Text], Le(n, w) + (Prefixed(s) + Prefixed(t)))
         == Some([Value(n), Bytes(s), Bytes(t)])
  {
    hide FieldsOf, Le, Prefixed, Pow256;
    TwoTexts(s, t);
    NumberFirst(w, n, [Text, Text], Prefixed(s) + Prefixed(t));
    assert [Number(w)] + [Text, Text] == [Number(w), Text, Text];
    assert [Value(n)] + [Bytes(s), Bytes(t)] == [Value(n), Bytes(s), Bytes(t)];
  }

  lemma NumberAndByte(n: u64, b: byte)
    ensures FieldsOf([Number(8), Number(1)], U64(n) + [b]) == Some([Value(n), Value(b)])
  {
    hide FieldsOf, Le, Pow256;
    Widths();
    Nothing();
    ByteFirst(b, [], []);
    assert [b] + [] == [b] && [Number(1)] + [] == [Number(1)] && [Value(b)] + [] == [Value(b)];
    NumberFirst(8, n, [Number(1)], [b]);
    assert [Number(8)] + [Number(1)] == [Number(8), Number(1)];
    assert [Value(n)] + [Value(b)] == [Value(n), Value(b)];
  }

  lemma OneByte(n: byte)
    ensures Le(n, 1) == [n]
  {
    assert Le(n / 256, 0) == [];
  }

  /** Every payload has the documented fields in the documented order, and nothing else. */
  lemma FieldsInOrder(m: Payload)
    requires Fits(m)
    ensures FieldsOf(ShapesOf(m), Wire(m)) == Some(ContentsOf(m))
  {
    hide FieldsOf, Le, Pow256, Prefixed, TurnShapes, TurnContents, TurnsBytes, OrEmpty;
    Widths();
    match m
    case ReqSend(session, turns, model, provider) => RequestInOrder(m);
    case RepFinal(session, content, reasoning) => NumberAndTexts(4, session, OrEmpty(content), OrEmpty(reasoning));
    case WorkerStart(parent, model, description) => NumberAndTexts(8, parent, OrEmpty(model), OrEmpty(description));
    case SessionRename(session, topic) => NumberAndText(4, session, OrEmpty(topic));
    case WorkerReq(workerType, op, args) => NumberAndTexts(4, workerType, OrEmpty(op), OrEmpty(args));
    case WorkerRep(success, result) =>
      OneByte(Flag(success));
      NumberAndText(1, Flag(success), OrEmpty(result));
    case ApprovalReq(reqCorr, description) => NumberAndText(8, reqCorr, OrEmpty(description));
    case ApprovalRep(reqCorr, approved) => NumberAndByte(reqCorr, Flag(approved));
  }

  lemma Nothing()
    ensures FieldsOf([], []) == Some([])
  {
  }

  lemma RequestInOrder(m: Payload)
    requires m.ReqSend? && Fits(m)
    ensures FieldsOf(ShapesOf(m), Wire(m)) == Some(ContentsOf(m))
  {
    hide FieldsOf, U32, Prefixed, TurnShapes, TurnContents, TurnsBytes;
    var n := |m.turns|;
    var x, y := OrEmpty(m.model), OrEmpty(m.provider);
    var tail := TurnsBytes(m.turns) + (Prefixed(x) + Prefixed(y));
    var shapes := TurnShapes(n) + [Text, Text];
    TwoTexts(x, y);
    TurnsFirst(m.turns, [Text, Text], Prefixed(x) + Prefixed(y), [Bytes(x), Bytes(y)]);
    U32First(n, shapes, tail);
    U32First(m.session, [Number(4)] + shapes, U32(n) + tail);
    assert ShapesOf(m) == [Number(4)] + ([Number(4)] + shapes);
    assert Wire(m) == U32(m.session) + (U32(n) + tail);
    var contents := TurnContents(m.turns) + [Bytes(x), Bytes(y)];
    assert ContentsOf(m) == [Value(m.session)] + ([Value(n)] + contents);
  }
}
