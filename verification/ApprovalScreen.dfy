/**
  * What the user can tell from the prompt on the status bar, a single line that ends with the window.
  * Every byte is taken to fill one column, as printable ASCII does.
  */
module ApprovalScreen {
  import opened Bytes
  import opened ApprovalProtocol
  import opened ApprovalRuns

  /** The description starts behind two columns and " [APPROVE?] ". */
  const INDENT: nat := 14

  /** Most bytes of a description: "%.80s". */
  const PRECISION: nat := 80

  const PROMPT := Ascii("  [Y]es / [N]o")

  /** Columns from the description on. */
  function Width(columns: nat): nat {
    if columns < INDENT then 0 else columns - INDENT
  }

  /** Room for the description in a window of that many columns. */
  function Room(columns: nat): (n: nat)
    ensures n <= PRECISION
  {
    if Width(columns) < PRECISION then Width(columns) else PRECISION
  }

  /** What is drawn of a description. */
  function Drawn(kept: bytes, columns: nat): bytes {
    Upto(kept, Room(columns))
  }

  /** Bytes of the path drawn behind "Create file: " and its kind: 67 from 94 columns on, 53 in 80 columns. */
  function PathRoom(columns: nat): (n: nat)
    ensures n == 67 <==> columns >= 94
    ensures columns == 80 ==> n == 53
  {
    if Room(columns) < 13 then 0 else Room(columns) - 13
  }

  predicate Mutating(op: FileOp) {
    op.CreateFile? || op.ModifyFile? || op.DeleteFile?
  }

  /**
    * What is drawn tells two requests apart exactly when they differ in the operation or in those bytes of
    * the path the window has room for. A window too narrow for the description tells nothing.
    */
  lemma ScreenTellsApart(op: FileOp, path: bytes, op': FileOp, path': bytes, columns: nat)
    requires Mutating(op) && Mutating(op')
    ensures Drawn(Kept(Describe(op, path)), columns) == Drawn(Kept(Describe(op', path')), columns)
      <==> columns <= INDENT || (op == op' && Upto(path, PathRoom(columns)) == Upto(path', PathRoom(columns)))
  {
    hide Describe, Kept;
    var n := Room(columns);
    OnScreen(op, path, columns);
    OnScreen(op', path', columns);
    VerbsDiffer(op, op');
    var x, y := Upto(path, PathRoom(columns)), Upto(path', PathRoom(columns));
    if n < 13 {
      assert n > 0 ==> Verb(op)[..n][0] == Verb(op)[0] && Verb(op')[..n][0] == Verb(op')[0];
    } else if Verb(op) + x == Verb(op') + y {
      assert Verb(op) == (Verb(op) + x)[..13] == (Verb(op') + y)[..13] == Verb(op');
      assert x == (Verb(op) + x)[13..] == (Verb(op') + y)[13..] == y;
    }
  }

  lemma VerbsDiffer(op: FileOp, op': FileOp)
    requires Mutating(op) && Mutating(op')
    ensures |Verb(op)| == |Verb(op')| == 13
    ensures Verb(op)[0] == Verb(op')[0] <==> op == op'
  {
    assert Ascii("Create file: ")[0] == 67 && Ascii("Modify file: ")[0] == 77 && Ascii("Delete file: ")[0] == 68;
  }

  lemma OnScreen(op: FileOp, path: bytes, columns: nat)
    requires Mutating(op) && |Verb(op)| == 13
    ensures Drawn(Kept(Describe(op, path)), columns)
         == if Room(columns) < 13 then Verb(op)[..Room(columns)] else Verb(op) + Upto(path, PathRoom(columns))
  {
    hide Verb;
    var d, n := Describe(op, path), Room(columns);
    assert |d| > 511 ==> d[..511][..n] == d[..n];
    assert |d| > n ==> d[..n] == if n < 13 then Verb(op)[..n] else Verb(op) + path[..n - 13];
  }

  /** A path the window has room for is shown whole, behind what would be done to it. */
  lemma ShownWhole(path: bytes, columns: nat)
    requires |path| <= PathRoom(columns) && columns > INDENT + 12
    ensures Drawn(Kept(Describe(CreateFile, path)), columns) == Ascii("Create file: ") + path
    ensures Drawn(Kept(Describe(ModifyFile, path)), columns) == Ascii("Modify file: ") + path
    ensures Drawn(Kept(Describe(DeleteFile, path)), columns) == Ascii("Delete file: ") + path
  {
    hide Ascii, Drawn, Kept, Describe;
    VerbsDiffer(CreateFile, ModifyFile);
    VerbsDiffer(DeleteFile, ModifyFile);
    OnScreen(CreateFile, path, columns);
    OnScreen(ModifyFile, path, columns);
    OnScreen(DeleteFile, path, columns);
    assert Upto(path, PathRoom(columns)) == path;
  }

  /** A path of `n` bytes and one more. */
  function LongPath(n: nat, last: byte): bytes {
    seq(n, _ => 97) + [last]
  }

  /** Paths that differ in the first byte there is no room for: their requests look the same. */
  lemma SameOnScreen(x: byte, y: byte, columns: nat)
    ensures var p, q := LongPath(PathRoom(columns), x), LongPath(PathRoom(columns), y);
      && (x != y ==> p != q)
      && Drawn(Kept(Describe(DeleteFile, p)), columns) == Drawn(Kept(Describe(DeleteFile, q)), columns)
  {
    hide Describe, Kept, Drawn;
    var n := PathRoom(columns);
    assert LongPath(n, x)[n] == x && LongPath(n, y)[n] == y;
    assert Upto(LongPath(n, x), n) == Upto(LongPath(n, y), n);
    ScreenTellsApart(DeleteFile, LongPath(n, x), DeleteFile, LongPath(n, y), columns);
  }

  /**
    * In every run, a file operation was consented to at a prompt that, in a window of any width that shows
    * some of it, is drawn for no other operation, and for no path with other bytes where there is room.
    */
  lemma PromptNamesEffect(actions: seq<Action>, i: nat, op: FileOp, path: bytes, columns: nat)
    requires Run(Init, actions).Some? && i < |Run(Init, actions).value.effects|
    requires Mutating(op) && columns > INDENT
    ensures var t := Run(Init, actions).value;
      var e := t.effects[i];
      var kept := Kept(Describe(e.op, e.path));
      && (e.corr, kept) in t.pressed
      && (Drawn(kept, columns) == Drawn(Kept(Describe(op, path)), columns)
          ==> op == e.op && Upto(path, PathRoom(columns)) == Upto(e.path, PathRoom(columns)))
  {
    hide Run, Describe, Kept, Drawn;
    EffectsHaveConsent(actions, i);
    var e := Run(Init, actions).value.effects[i];
    ScreenTellsApart(e.op, e.path, op, path, columns);
  }

  // --- The line behind the description -------------------------------------------------------

  function Blanks(n: nat): (t: bytes)
    ensures |t| == n && forall k | 0 <= k < n :: t[k] == SPACE
  {
    seq(n, _ => SPACE)
  }

  /** The status bar from the description on: description, keys, and blanks up to the end of the line. */
  function Line(kept: bytes, columns: nat): (t: bytes)
    ensures |t| == Width(columns)
  {
    (Upto(kept, PRECISION) + PROMPT + Blanks(Width(columns)))[..Width(columns)]
  }

  /** The keys are on the line in full. */
  predicate KeysShown(kept: bytes, columns: nat) {
    |Upto(kept, PRECISION)| + |PROMPT| <= Width(columns)
  }

  /** The description fills the line. */
  predicate Fills(kept: bytes, columns: nat) {
    |Upto(kept, PRECISION)| >= Width(columns)
  }

  /**
    * Descriptions drawn the same give the same line; the same line comes from descriptions drawn the same
    * where both leave the keys on the line, or both fill it.
    */
  lemma LineTellsApart(k: bytes, k': bytes, columns: nat)
    ensures Drawn(k, columns) == Drawn(k', columns) ==> Line(k, columns) == Line(k', columns)
    ensures (KeysShown(k, columns) && KeysShown(k', columns)) || (Fills(k, columns) && Fills(k', columns)) ==>
      (Line(k, columns) == Line(k', columns) <==> Drawn(k, columns) == Drawn(k', columns))
  {
    var n := Width(columns);
    DrawnGivesLine(k, columns);
    DrawnGivesLine(k', columns);
    if KeysShown(k, columns) && KeysShown(k', columns) && Line(k, columns) == Line(k', columns) {
      KeysEnd(k, k', columns);
      KeysEnd(k', k, columns);
      assert Line(k, columns)[..|Upto(k, PRECISION)|] == Upto(k, PRECISION);
      assert Line(k', columns)[..|Upto(k', PRECISION)|] == Upto(k', PRECISION);
    }
  }

  lemma DrawnGivesLine(k: bytes, columns: nat)
    ensures Line(k, columns)
         == (Drawn(k, columns) + PROMPT + Blanks(Width(columns)))[..Width(columns)]
    ensures Fills(k, columns) ==> Line(k, columns) == Drawn(k, columns)
  {
    var n, a := Width(columns), Upto(k, PRECISION);
    if n < PRECISION && |a| > n {
      assert (a + PROMPT + Blanks(n))[..n] == a[..n] == Drawn(k, columns);
    } else {
      assert a == Drawn(k, columns);
    }
  }

  /** The last key is followed by blanks: the longer description does not leave the same line. */
  lemma KeysEnd(k: bytes, k': bytes, columns: nat)
    requires KeysShown(k, columns) && KeysShown(k', columns) && Line(k, columns) == Line(k', columns)
    ensures |Upto(k, PRECISION)| <= |Upto(k', PRECISION)|
  {
    var a, b := |Upto(k, PRECISION)|, |Upto(k', PRECISION)|;
    assert |PROMPT| == 14 && PROMPT[13] == 111;
    assert Line(k, columns)[a + 13] == PROMPT[13];
    assert forall j | b + 14 <= j < Width(columns) :: Line(k', columns)[j] == SPACE;
  }
}
