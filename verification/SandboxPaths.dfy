/**
  * Resolving paths inside the sandbox of the file-system worker. A string test stands for a test on
  * path components; `realpath` is any function to canonical paths.
  */
module SandboxPaths {
  import opened Bytes

  const FS_PATH_MAX: nat := 4096

  /** A path component: a plain name. */
  predicate IsName(c: bytes) {
    c != [] && SLASH !in c && NulFree(c) && c != [DOT] && c != [DOT, DOT]
  }

  predicate Names(cs: seq<bytes>) {
    forall i | 0 <= i < |cs| :: IsName(cs[i])
  }

  /** Every component with a slash before it. */
  function Joined(cs: seq<bytes>): (p: bytes)
    ensures cs != [] ==> p != [] && p[0] == SLASH
  {
    if cs == [] then [] else [SLASH] + cs[0] + Joined(cs[1..])
  }

  /** A canonical absolute path. */
  function Path(cs: seq<bytes>): bytes {
    if cs == [] then [SLASH] else Joined(cs)
  }

  /** What realpath may be: canonical paths that fit the buffer, or failure. */
  ghost predicate IsRealpath(canon: bytes -> Option<seq<bytes>>) {
    forall p :: canon(p).Some? ==> Names(canon(p).value) && |Path(canon(p).value)| < FS_PATH_MAX
  }

  // --- The boundary test -------------------------------------------------------------------

  /** `resolved` starts with `root`, and the root ends there or a slash follows. */
  predicate BoundaryTest(root: bytes, resolved: bytes) {
    root <= resolved && (|resolved| == |root| || resolved[|root|] == SLASH)
  }

  /** Two slash-free names at the same place, each followed by a slash or the end, are the same. */
  lemma SameName(a: bytes, b: bytes, s: bytes)
    requires SLASH !in a && SLASH !in b
    requires a <= s && (|s| == |a| || s[|a|] == SLASH)
    requires b <= s && (|s| == |b| || s[|b|] == SLASH)
    ensures a == b
  {
    if |a| < |b| {
      assert false;
    } else if |b| < |a| {
      assert false;
    }
    assert a == s[..|a|] == b;
  }

  lemma {:induction false} JoinedBoundary(root: seq<bytes>, cs: seq<bytes>)
    requires Names(root) && Names(cs)
    ensures BoundaryTest(Joined(root), Joined(cs)) <==> root <= cs
    decreases |root|
  {
    if root == [] {
    } else if cs == [] {
    } else {
      var r, s := Joined(root[1..]), Joined(cs[1..]);
      JoinedBoundary(root[1..], cs[1..]);
      assert root <= cs <==> root[0] == cs[0] && root[1..] <= cs[1..] by { PrefixStep(root, cs); }
      JoinedStep(root[0], r, cs[0], s);
    }
  }

  lemma PrefixStep(a: seq<bytes>, b: seq<bytes>)
    requires a != [] && b != []
    ensures a <= b <==> a[0] == b[0] && a[1..] <= b[1..]
  {
    assert a == [a[0]] + a[1..];
    assert b == [b[0]] + b[1..];
  }

  lemma JoinedStep(a: bytes, r: bytes, b: bytes, s: bytes)
    requires IsName(a) && IsName(b) && (r == [] || r[0] == SLASH) && (s == [] || s[0] == SLASH)
    ensures BoundaryTest([SLASH] + a + r, [SLASH] + b + s) <==> a == b && BoundaryTest(r, s)
  {
    var p, q := [SLASH] + a + r, [SLASH] + b + s;
    if BoundaryTest(p, q) {
      assert q[1..] == b + s;
      assert a <= q[1..] && b <= q[1..];
      assert r != [] ==> q[1..][|a|] == p[1 + |a|] == r[0];
      SameName(a, b, q[1..]);
      assert r == p[1 + |a|..] && s == q[1 + |a|..];
    }
  }

  /**
    * The string test accepts exactly the paths whose components extend those of the root, unless the
    * root is "/"; then it accepts "/" alone.
    */
  lemma BoundaryExactly(root: seq<bytes>, cs: seq<bytes>)
    requires Names(root) && Names(cs)
    ensures root != [] ==> (BoundaryTest(Path(root), Path(cs)) <==> root <= cs)
    ensures root == [] ==> (BoundaryTest(Path(root), Path(cs)) <==> cs == [])
  {
    JoinedBoundary(root, cs);
    if root == [] && cs != [] {
      assert Path(cs)[1] == cs[0][0];
      assert cs[0][0] in cs[0];
    } else if root != [] && cs == [] {
      assert |Path(root)| > 1;
    }
  }

  /** With the root "/", the path "/home" is refused, although it is inside. */
  lemma TopRefusesHome()
    ensures IsName(Ascii("home")) && Path([]) == Ascii("/") && Path([Ascii("home")]) == Ascii("/home")
    ensures [] <= [Ascii("home")] && !BoundaryTest(Path([]), Path([Ascii("home")]))
  {
    assert Joined([]) == [];
    assert [Ascii("home")][1..] == [];
    assert Joined([Ascii("home")]) == Ascii("/home");
    BoundaryExactly([], [Ascii("home")]);
  }

  /** A path is canonical in one way only. */
  lemma PathInjective(a: seq<bytes>, b: seq<bytes>)
    requires Names(a) && Names(b) && Path(a) == Path(b)
    ensures a == b
  {
    BoundaryExactly(a, b);
    BoundaryExactly(b, a);
    if a == [] || b == [] {
    } else {
      assert a <= b && b <= a;
    }
  }

  // --- Resolving ---------------------------------------------------------------------------

  function StripSlashes(p: bytes): (q: bytes)
    ensures q == [] || q[0] != SLASH
  {
    if p != [] && p[0] == SLASH then StripSlashes(p[1..]) else p
  }

  /** The position of the last slash, or the length when there is none. */
  function LastSlash(p: bytes): (i: nat)
    ensures i <= |p|
    ensures i < |p| ==> p[i] == SLASH && SLASH !in p[i + 1..]
    ensures i == |p| ==> SLASH !in p
  {
    if p == [] then 0
    else if p[|p| - 1] == SLASH then |p| - 1
    else
      var k := |p| - 1;
      var i := LastSlash(p[..k]);
      assert p == p[..k] + [p[k]];
      if i == k then |p|
      else
        assert p[i + 1..] == p[..k][i + 1..] + [p[k]];
        i
  }

  /** The last component of a candidate, when it may name a new file. */
  function NewName(cand: bytes): Option<bytes> {
    var i := LastSlash(cand);
    if i == |cand| || cand[i + 1..] == [] || cand[i + 1..] == [DOT] || cand[i + 1..] == [DOT, DOT] then None
    else Some(cand[i + 1..])
  }

  /** What exists is accepted if its components extend those of the root. */
  function Existing(root: seq<bytes>, cand: bytes, canon: bytes -> Option<seq<bytes>>): Option<seq<bytes>> {
    if canon(cand).Some? && root <= canon(cand).value then canon(cand) else None
  }

  /** A new file needs a plain name and an existing parent. */
  function Created(root: seq<bytes>, cand: bytes, canon: bytes -> Option<seq<bytes>>): Option<seq<bytes>> {
    var base, parent := NewName(cand), canon(cand[..LastSlash(cand)]);
    if base.None? || parent.None? || |Path(parent.value)| + 1 + |base.value| >= FS_PATH_MAX then None
    else if parent.value != [] && root <= parent.value + [base.value] then Some(parent.value + [base.value])
    else None
  }

  /**
    * What a request resolves to, on components: the root itself for an empty path; else what realpath
    * makes of the path, or of the parent of a file to be created, if that extends the root. The root is
    * not "/".
    */
  function Resolved(root: seq<bytes>, requested: Option<bytes>, forCreate: bool, canon: bytes -> Option<seq<bytes>>)
    : Option<seq<bytes>>
  {
    if requested.None? then None
    else if StripSlashes(requested.value) == [] then Some(root)
    else
      var cand := Path(root) + [SLASH] + StripSlashes(requested.value);
      if |cand| >= FS_PATH_MAX then None
      else if forCreate then Created(root, cand, canon)
      else Existing(root, cand, canon)
  }

  function ExistingAtTop(cand: bytes, canon: bytes -> Option<seq<bytes>>): Option<bytes> {
    if canon(cand) == Some([]) then Some([SLASH]) else None
  }

  function CreatedAtTop(cand: bytes, canon: bytes -> Option<seq<bytes>>): Option<bytes> {
    var base := NewName(cand);
    if base.Some? && canon(cand[..LastSlash(cand)]) == Some([]) && 2 + |base.value| < FS_PATH_MAX
    then Some([SLASH, SLASH] + base.value) else None
  }

  /**
    * With the root "/" the test is not one on components: what exists is refused, except "/", and a new
    * file is accepted only directly under "/", with its slash doubled.
    */
  function ResolvedAtTop(requested: Option<bytes>, forCreate: bool, canon: bytes -> Option<seq<bytes>>): Option<bytes> {
    if requested.None? then None
    else if StripSlashes(requested.value) == [] then Some([SLASH])
    else
      var cand := Path([]) + [SLASH] + StripSlashes(requested.value);
      if |cand| >= FS_PATH_MAX then None
      else if forCreate then CreatedAtTop(cand, canon)
      else ExistingAtTop(cand, canon)
  }

  function Rendered(o: Option<seq<bytes>>): Option<bytes> {
    if o.None? then None else Some(Path(o.value))
  }

  lemma {:induction false} JoinedAppend(cs: seq<bytes>, c: bytes)
    ensures Joined(cs + [c]) == Joined(cs) + ([SLASH] + c)
  {
    if cs == [] {
      assert ([] + [c])[1..] == [];
    } else {
      assert (cs + [c])[1..] == cs[1..] + [c];
      JoinedAppend(cs[1..], c);
      assert [SLASH] + cs[0] + (Joined(cs[1..]) + ([SLASH] + c)) == [SLASH] + cs[0] + Joined(cs[1..]) + ([SLASH] + c);
    }
  }

  lemma {:induction false} JoinedNulFree(cs: seq<bytes>)
    requires Names(cs)
    ensures NulFree(Joined(cs))
  {
    if cs != [] {
      JoinedNulFree(cs[1..]);
    }
  }

  lemma NewNameIsName(cand: bytes)
    requires NulFree(cand) && NewName(cand).Some?
    ensures IsName(NewName(cand).value)
  {
  }

  /** A new file's path: canonical under a parent other than "/", a doubled slash under "/". */
  lemma NewFileBoundary(root: seq<bytes>, parent: seq<bytes>, base: bytes)
    requires Names(root) && Names(parent) && IsName(base)
    ensures parent != [] ==> Path(parent) + [SLASH] + base == Path(parent + [base])
    ensures parent != [] && root != [] ==>
      (BoundaryTest(Path(root), Path(parent) + [SLASH] + base) <==> root <= parent + [base])
    ensures parent == [] ==> (BoundaryTest(Path(root), Path(parent) + [SLASH] + base) <==> root == [])
    ensures parent != [] && root == [] ==> !BoundaryTest(Path(root), Path(parent) + [SLASH] + base)
  {
    JoinedAppend(parent, base);
    assert Joined(parent) + ([SLASH] + base) == Joined(parent) + [SLASH] + base;
    if parent != [] {
      BoundaryExactly(root, parent + [base]);
    } else if root != [] {
      assert Path(root)[1] == root[0][0] && root[0][0] in root[0];
    }
  }

  // --- What is accepted, on strings ----------------------------------------------------------

  /** The canonical path of something inside the directory with these components, or of the directory. */
  ghost predicate Inside(root: seq<bytes>, p: bytes) {
    exists cs :: Names(cs) && root <= cs && p == Path(cs)
  }

  /** What is left of a request behind the slashes it begins with. */
  ghost predicate Behind(requested: bytes, req: bytes) {
    && |req| <= |requested| && requested[|requested| - |req|..] == req
    && (forall k | 0 <= k < |requested| - |req| :: requested[k] == SLASH)
    && (req == [] || req[0] != SLASH)
  }

  predicate IsPlain(base: bytes) {
    base != [] && base != [DOT] && base != [DOT, DOT]
  }

  /** The answer for what exists: what realpath makes of the candidate, if that is inside. */
  ghost predicate AnswersExisting(r: Option<bytes>, root: seq<bytes>, real': Option<bytes>) {
    r == if real'.Some? && Inside(root, real'.value) then real' else None
  }

  /** The answer for a new file: its plain name behind what realpath makes of its directory, if that is inside. */
  ghost predicate AnswersNew(r: Option<bytes>, root: seq<bytes>, dir: Option<bytes>, base: bytes) {
    r == if IsPlain(base) && dir.Some? && |dir.value| + 1 + |base| < FS_PATH_MAX
            && Inside(root, dir.value + [SLASH] + base)
         then Some(dir.value + [SLASH] + base) else None
  }

  /** The answer for a request whose slashes in front are gone. */
  ghost predicate Answers(r: Option<bytes>, root: seq<bytes>, req: bytes, forCreate: bool,
                          realpath: bytes -> Option<bytes>)
  {
    var cand := Path(root) + [SLASH] + req;
    if req == [] then r == Some(Path(root))
    else if |cand| >= FS_PATH_MAX then r == None
    else if !forCreate then AnswersExisting(r, root, realpath(cand))
    else
      forall dir, base | cand == dir + [SLASH] + base && SLASH !in base :: AnswersNew(r, root, realpath(dir), base)
  }

  lemma {:induction false} StripIs(requested: bytes, req: bytes)
    requires Behind(requested, req)
    ensures StripSlashes(requested) == req
    decreases |requested|
  {
    if |requested| > |req| {
      assert requested[1..][|requested| - 1 - |req|..] == req;
      StripIs(requested[1..], req);
    } else {
      assert requested == req;
    }
  }

  /** There always is what is left. */
  lemma {:induction false} BehindStrip(requested: bytes)
    ensures Behind(requested, StripSlashes(requested))
    decreases |requested|
  {
    hide Behind;
    if requested != [] && requested[0] == SLASH {
      BehindStrip(requested[1..]);
      BehindMore(requested, StripSlashes(requested[1..]));
    } else {
      BehindNothing(requested);
    }
  }

  lemma BehindMore(requested: bytes, req: bytes)
    requires requested != [] && requested[0] == SLASH && Behind(requested[1..], req)
    ensures Behind(requested, req)
  {
    var rest, n := requested[1..], |requested| - |req|;
    forall k | 0 <= k < n ensures requested[k] == SLASH {
      assert k > 0 ==> requested[k] == rest[k - 1];
    }
    assert requested[n..] == rest[n - 1..];
  }

  lemma BehindNothing(requested: bytes)
    requires requested == [] || requested[0] != SLASH
    ensures Behind(requested, requested)
  {
    assert requested[0..] == requested;
  }

  lemma InsideExactly(root: seq<bytes>, cs: seq<bytes>)
    requires Names(root) && Names(cs)
    ensures Inside(root, Path(cs)) <==> root <= cs
  {
    hide Names, Path;
    if Inside(root, Path(cs)) {
      var ds :| Names(ds) && root <= ds && Path(cs) == Path(ds);
      PathInjective(cs, ds);
    }
  }

  lemma SplitOnce(dir: bytes, base: bytes)
    requires SLASH !in base
    ensures
      var cand := dir + [SLASH] + base;
      LastSlash(cand) == |dir| && cand[|dir| + 1..] == base && cand[..|dir|] == dir
  {
    var cand := dir + [SLASH] + base;
    assert forall j | |dir| < j < |cand| :: cand[j] == base[j - |dir| - 1];
    LastSlashIs(cand, |dir|);
  }

  lemma LastSlashIs(p: bytes, k: nat)
    requires k < |p| && p[k] == SLASH && forall j | k < j < |p| :: p[j] != SLASH
    ensures LastSlash(p) == k
  {
    hide LastSlash;
    var i := LastSlash(p);
    assert p[k] in p;
    assert forall j | i < j < |p| :: p[j] == p[i + 1..][j - i - 1];
  }

  /** No canonical path begins with two slashes. */
  lemma DoubledIsOutside(root: seq<bytes>, base: bytes)
    ensures !Inside(root, [SLASH, SLASH] + base)
  {
    forall cs | Names(cs) ensures [SLASH, SLASH] + base != Path(cs) {
      if cs != [] {
        assert IsName(cs[0]);
        assert Path(cs)[1] == cs[0][0];
      }
    }
  }

  lemma ExistingAnswers(root: seq<bytes>, cand: bytes, canon: bytes -> Option<seq<bytes>>)
    requires Names(root) && IsRealpath(canon)
    ensures AnswersExisting(Rendered(Existing(root, cand, canon)), root, Rendered(canon(cand)))
  {
    hide Names, Path, Inside;
    if canon(cand).Some? {
      InsideExactly(root, canon(cand).value);
    }
  }

  lemma CreatedAnswers(root: seq<bytes>, dir: bytes, base: bytes, canon: bytes -> Option<seq<bytes>>)
    requires Names(root) && root != [] && IsRealpath(canon) && SLASH !in base && NulFree(base)
    ensures AnswersNew(Rendered(Created(root, dir + [SLASH] + base, canon)), root, Rendered(canon(dir)), base)
  {
    hide Joined, Inside, LastSlash;
    SplitOnce(dir, base);
    var parent := canon(dir);
    if IsPlain(base) && parent.Some? {
      NewFileBoundary(root, parent.value, base);
      if parent.value == [] {
        DoubledIsOutside(root, base);
        assert Path([]) + [SLASH] + base == [SLASH, SLASH] + base;
      } else {
        InsideExactly(root, parent.value + [base]);
      }
    }
  }

  /**
    * For a root other than "/": a request is accepted exactly when realpath puts its candidate, or the
    * directory of the file to be created, inside the root, and the answer is what realpath says. Slashes
    * in front of the request change nothing.
    */
  lemma AcceptsExactly(root: seq<bytes>, requested: bytes, req: bytes, forCreate: bool,
                       realpath: bytes -> Option<bytes>, canon: bytes -> Option<seq<bytes>>)
    requires Names(root) && root != [] && NulFree(requested) && Behind(requested, req)
    requires IsRealpath(canon) && forall p :: realpath(p) == Rendered(canon(p))
    ensures Answers(Rendered(Resolved(root, Some(requested), forCreate, canon)), root, req, forCreate, realpath)
  {
    hide Joined, AnswersNew, AnswersExisting, Created, Existing, Path, IsRealpath;
    StripIs(requested, req);
    var cand := Path(root) + [SLASH] + req;
    if req != [] && |cand| < FS_PATH_MAX {
      if forCreate {
        CandidateNulFree(root, requested);
        forall dir, base | cand == dir + [SLASH] + base && SLASH !in base
          ensures AnswersNew(Rendered(Created(root, cand, canon)), root, realpath(dir), base)
        {
          assert base == cand[|dir| + 1..];
          CreatedAnswers(root, dir, base, canon);
        }
      } else {
        ExistingAnswers(root, cand, canon);
      }
    }
  }

  /** Loop and all, on strings: the leading slashes are skipped one by one. */
  method SkipSlashes(requested: bytes) returns (req: bytes)
    ensures req == StripSlashes(requested)
  {
    req := requested;
    while req != [] && req[0] == SLASH
      invariant StripSlashes(req) == StripSlashes(requested)
    {
      req := req[1..];
    }
  }

  /** The branch for what must exist. */
  method ResolveExisting(root: bytes, cand: bytes, realpath: bytes -> Option<bytes>,
                         ghost names: seq<bytes>, ghost canon: bytes -> Option<seq<bytes>>)
    returns (r: Option<bytes>)
    requires Names(names) && root == Path(names)
    requires IsRealpath(canon) && forall p :: realpath(p) == Rendered(canon(p))
    ensures r == if names != [] then Rendered(Existing(names, cand, canon)) else ExistingAtTop(cand, canon)
  {
    hide Joined, Names, BoundaryTest;
    var p := realpath(cand);
    if p.None? {
      return None;
    }
    BoundaryExactly(names, canon(cand).value);
    var inside := StartsInside(root, p.value);
    return if inside then p else None;
  }

  /** The branch for a new file. */
  method ResolveNew(root: bytes, cand: bytes, realpath: bytes -> Option<bytes>,
                    ghost names: seq<bytes>, ghost canon: bytes -> Option<seq<bytes>>)
    returns (r: Option<bytes>)
    requires Names(names) && root == Path(names) && NulFree(cand)
    requires IsRealpath(canon) && forall p :: realpath(p) == Rendered(canon(p))
    ensures r == if names != [] then Rendered(Created(names, cand, canon)) else CreatedAtTop(cand, canon)
  {
    hide Joined, Names, BoundaryTest, LastSlash, NulFree;
    var slash := LastSlash(cand);
    if slash == |cand| {
      return None;
    }
    var base := cand[slash + 1..];
    if base == [] || base == [DOT] || base == [DOT, DOT] {
      return None;
    }
    var par := realpath(cand[..slash]);
    if par.None? || |par.value| + 1 + |base| >= FS_PATH_MAX {
      return None;
    }
    NewNameIsName(cand);
    NewFileBoundary(names, canon(cand[..slash]).value, base);
    var resolved := par.value + [SLASH] + base;
    assert canon(cand[..slash]) == Some([]) ==> resolved == [SLASH, SLASH] + base;
    var inside := StartsInside(root, resolved);
    return if inside then Some(resolved) else None;
  }

  /** fs_resolve, on strings. It does what Resolved says on components. */
  method Resolve(root: bytes, requested: Option<bytes>, forCreate: bool, realpath: bytes -> Option<bytes>,
                 ghost names: seq<bytes>, ghost canon: bytes -> Option<seq<bytes>>)
    returns (r: Option<bytes>)
    requires Names(names) && root == Path(names) && (requested.Some? ==> NulFree(requested.value))
    requires IsRealpath(canon) && forall p :: realpath(p) == Rendered(canon(p))
    ensures names != [] ==> r == Rendered(Resolved(names, requested, forCreate, canon))
    ensures names == [] ==> r == ResolvedAtTop(requested, forCreate, canon)
    ensures names != [] && requested.Some? ==>
      forall req | Behind(requested.value, req) :: Answers(r, names, req, forCreate, realpath)
    ensures requested.None? ==> r == None
  {
    hide Joined, Names, BoundaryTest, Created, Existing, CreatedAtTop, ExistingAtTop, NulFree;
    if requested.None? {
      return None;
    }
    var req := SkipSlashes(requested.value);
    if req == [] {
      r := Some(root);
    } else {
      var cand := root + [SLASH] + req;
      if |cand| >= FS_PATH_MAX {
        r := None;
      } else if !forCreate {
        r := ResolveExisting(root, cand, realpath, names, canon);
      } else {
        CandidateNulFree(names, requested.value);
        r := ResolveNew(root, cand, realpath, names, canon);
      }
    }
    if names != [] {
      AllAnswered(names, requested.value, forCreate, realpath, canon);
    }
  }

  lemma AllAnswered(root: seq<bytes>, requested: bytes, forCreate: bool,
                    realpath: bytes -> Option<bytes>, canon: bytes -> Option<seq<bytes>>)
    requires Names(root) && root != [] && NulFree(requested)
    requires IsRealpath(canon) && forall p :: realpath(p) == Rendered(canon(p))
    ensures forall req | Behind(requested, req) ::
      Answers(Rendered(Resolved(root, Some(requested), forCreate, canon)), root, req, forCreate, realpath)
  {
    hide Names, NulFree, IsRealpath, Behind, Answers, Resolved;
    forall req | Behind(requested, req)
      ensures Answers(Rendered(Resolved(root, Some(requested), forCreate, canon)), root, req, forCreate, realpath)
    {
      AcceptsExactly(root, requested, req, forCreate, realpath, canon);
    }
  }

  lemma CandidateNulFree(names: seq<bytes>, requested: bytes)
    requires Names(names) && NulFree(requested)
    ensures NulFree(Path(names) + [SLASH] + StripSlashes(requested))
  {
    JoinedNulFree(names);
    StripNulFree(requested);
  }

  lemma {:induction false} StripNulFree(p: bytes)
    requires NulFree(p)
    ensures NulFree(StripSlashes(p))
  {
    if p != [] && p[0] == SLASH {
      StripNulFree(p[1..]);
    }
  }

  /** strncmp and the character behind the root. */
  method StartsInside(root: bytes, resolved: bytes) returns (inside: bool)
    ensures inside == BoundaryTest(root, resolved)
  {
    if !(root <= resolved) {
      return false;
    }
    return |resolved| == |root| || resolved[|root|] == SLASH;
  }

  /** Whatever is accepted is a canonical path inside the root, whatever the file system looks like. */
  lemma ResolvedStaysInside(root: seq<bytes>, requested: bytes, forCreate: bool, canon: bytes -> Option<seq<bytes>>)
    requires Names(root) && root != [] && NulFree(requested) && IsRealpath(canon)
    requires Resolved(root, Some(requested), forCreate, canon).Some?
    ensures var cs := Resolved(root, Some(requested), forCreate, canon).value;
      root <= cs && Names(cs) && BoundaryTest(Path(root), Path(cs))
  {
    hide Joined, BoundaryTest, LastSlash;
    var cand := Path(root) + [SLASH] + StripSlashes(requested);
    CandidateNulFree(root, requested);
    if forCreate && NewName(cand).Some? {
      NewNameIsName(cand);
    }
    BoundaryExactly(root, Resolved(root, Some(requested), forCreate, canon).value);
  }

  // --- The path shown to the user ----------------------------------------------------------

  /** fs_rel. */
  function Relative(root: bytes, path: bytes): bytes {
    if !(root <= path) then path
    else
      var rest := path[|root|..];
      var rel := if rest != [] && rest[0] == SLASH then rest[1..] else rest;
      if rel == [] then [DOT] else rel
  }

  /** What is shown of an accepted path rebuilds it behind the root; the root itself is shown as ".". */
  lemma RelativeRebuilds(root: seq<bytes>, cs: seq<bytes>)
    requires Names(root) && Names(cs) && root != [] && root <= cs
    ensures cs == root <==> Relative(Path(root), Path(cs)) == [DOT]
    ensures cs != root ==> Path(root) + [SLASH] + Relative(Path(root), Path(cs)) == Path(cs)
    ensures cs != root ==> [SLASH] + Relative(Path(root), Path(cs)) == Joined(cs[|root|..])
  {
    hide Joined, Names;
    var behind := cs[|root|..];
    assert cs == root + behind;
    JoinedSplit(root, behind);
    assert Path(cs) == Path(root) + Joined(behind);
    NoNames();
    if cs != root {
      assert Names(behind) by { NamesBehind(cs, |root|); }
      RestIsNames(behind);
      assert Joined(behind) == [SLASH] + Joined(behind)[1..];
      RelativeOf(Path(root), Joined(behind));
    } else {
      RelativeOf(Path(root), []);
    }
  }

  lemma NoNames()
    ensures Joined([]) == []
  {
  }

  lemma NamesBehind(cs: seq<bytes>, n: nat)
    requires Names(cs) && n <= |cs|
    ensures Names(cs[n..])
  {
  }

  lemma RelativeOf(root: bytes, rest: bytes)
    requires rest == [] || (|rest| > 1 && rest[0] == SLASH)
    ensures Relative(root, root + rest) == if rest == [] then [DOT] else rest[1..]
    ensures rest != [] ==> root + [SLASH] + rest[1..] == root + rest
  {
    assert (root + rest)[|root|..] == rest;
    assert rest != [] ==> rest == [SLASH] + rest[1..];
  }

  lemma RestIsNames(cs: seq<bytes>)
    requires Names(cs) && cs != []
    ensures |Joined(cs)| > 1 && Joined(cs)[1..] != [DOT]
  {
    assert IsName(cs[0]);
    assert Joined(cs)[1] == cs[0][0];
    assert Joined(cs)[1..][..|cs[0]|] == cs[0];
  }

  lemma {:induction false} JoinedSplit(a: seq<bytes>, b: seq<bytes>)
    ensures Joined(a + b) == Joined(a) + Joined(b)
  {
    if a == [] {
      assert a + b == b;
    } else {
      assert (a + b)[1..] == a[1..] + b;
      JoinedSplit(a[1..], b);
      assert [SLASH] + a[0] + (Joined(a[1..]) + Joined(b)) == [SLASH] + a[0] + Joined(a[1..]) + Joined(b);
    }
  }

  /** Also the doubled slash under the root "/" is rebuilt. */
  lemma RelativeRebuildsAtTop(base: bytes)
    requires IsName(base)
    ensures [SLASH] + [SLASH] + Relative([SLASH], [SLASH, SLASH] + base) == [SLASH, SLASH] + base
  {
    var p := [SLASH, SLASH] + base;
    assert p[1..] == [SLASH] + base;
    assert p[1..][1..] == base;
  }
}
