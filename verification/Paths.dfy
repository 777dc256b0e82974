/** Path confinement in the SFTP gateway: the two normalisers and the command rewriting. */
module Paths {
  import opened Texts
  import opened Validation

  // ---- filepath.Clean on rooted paths ----------------------------------------

  /** A path component that cleaning keeps. */
  predicate Proper(c: string) { c != "" && c != "." && c != ".." && Free(c, '/') }

  predicate AllProper(cs: seq<string>) { forall i :: 0 <= i < |cs| ==> Proper(cs[i]) }

  /** Walk the components of a rooted path: blanks and "." stay, ".." goes up and stops at the root. */
  function Walk(at: seq<string>, parts: seq<string>): seq<string>
    decreases |parts|
  {
    if parts == [] then at
    else if parts[0] == "" || parts[0] == "." then Walk(at, parts[1..])
    else if parts[0] == ".." then Walk(if at == [] then at else at[..|at| - 1], parts[1..])
    else Walk(at + [parts[0]], parts[1..])
  }

  function Slashed(cs: seq<string>): string { if cs == [] then "" else ['/'] + cs[0] + Slashed(cs[1..]) }

  function Rooted(cs: seq<string>): string { if cs == [] then "/" else Slashed(cs) }

  /** filepath.Clean of a path that starts with '/'. */
  function Clean(path: string): string
    requires path != "" && path[0] == '/'
  {
    Rooted(Walk([], SplitOn(path, '/')))
  }

  lemma {:induction false} WalkIsProper(at: seq<string>, parts: seq<string>)
    requires AllProper(at) && forall i :: 0 <= i < |parts| ==> Free(parts[i], '/')
    ensures AllProper(Walk(at, parts))
    decreases |parts|
  {
    if parts != [] {
      if parts[0] == "" || parts[0] == "." {
        WalkIsProper(at, parts[1..]);
      } else if parts[0] == ".." {
        WalkIsProper(if at == [] then at else at[..|at| - 1], parts[1..]);
      } else {
        WalkIsProper(at + [parts[0]], parts[1..]);
      }
    }
  }

  lemma {:induction false} WalkProper(at: seq<string>, cs: seq<string>)
    requires AllProper(cs)
    ensures Walk(at, cs) == at + cs
    decreases |cs|
  {
    if cs != [] {
      WalkProper(at + [cs[0]], cs[1..]);
      assert at + [cs[0]] + cs[1..] == at + cs;
    }
  }

  lemma {:induction false} SplitSlashed(c: string, cs: seq<string>)
    requires Free(c, '/') && AllProper(cs)
    ensures SplitOn(c + Slashed(cs), '/') == [c] + cs
    decreases |cs|
  {
    if cs == [] {
      assert c + "" == c;
      SplitOnFree(c, '/');
    } else {
      SplitSlashed(cs[0], cs[1..]);
      assert c + Slashed(cs) == c + ['/'] + (cs[0] + Slashed(cs[1..]));
      SplitOnAppend(c, '/', cs[0] + Slashed(cs[1..]));
    }
  }

  lemma {:induction false} SlashedConcat(a: seq<string>, b: seq<string>)
    ensures Slashed(a + b) == Slashed(a) + Slashed(b)
  {
    if a == [] {
      assert a + b == b;
    } else {
      assert (a + b)[1..] == a[1..] + b;
      SlashedConcat(a[1..], b);
    }
  }

  lemma {:induction false} WalkConcat(at: seq<string>, p: seq<string>, q: seq<string>)
    ensures Walk(at, p + q) == Walk(Walk(at, p), q)
    decreases |p|
  {
    if p == [] {
      assert p + q == q;
    } else {
      assert (p + q)[1..] == p[1..] + q;
      if p[0] == "" || p[0] == "." {
        WalkConcat(at, p[1..], q);
      } else if p[0] == ".." {
        WalkConcat(if at == [] then at else at[..|at| - 1], p[1..], q);
      } else {
        WalkConcat(at + [p[0]], p[1..], q);
      }
    }
  }

  lemma {:induction false} SplitTrailing(a: seq<string>)
    requires AllProper(a)
    ensures SplitOn(Slashed(a) + ['/'], '/') == [""] + a + [""]
  {
    if a == [] {
      assert Slashed(a) + ['/'] == "" + ['/'] + "";
      SplitOnAppend("", '/', "");
    } else {
      TrailingOf(a[0], a[1..]);
      var rest := a[0] + Slashed(a[1..]) + ['/'];
      assert Slashed(a) + ['/'] == "" + ['/'] + rest;
      SplitOnAppend("", '/', rest);
      assert [""] + ([a[0]] + a[1..] + [""]) == [""] + a + [""];
    }
  }

  lemma {:induction false} TrailingOf(c: string, cs: seq<string>)
    requires Free(c, '/') && AllProper(cs)
    ensures SplitOn(c + Slashed(cs) + ['/'], '/') == [c] + cs + [""]
    decreases |cs|
  {
    hide SplitOn;
    if cs == [] {
      SplitOnFree("", '/');
      assert c + Slashed(cs) + ['/'] == c + ['/'] + "";
      SplitOnAppend(c, '/', "");
    } else {
      TrailingOf(cs[0], cs[1..]);
      var rest := cs[0] + Slashed(cs[1..]) + ['/'];
      assert c + Slashed(cs) + ['/'] == c + ['/'] + rest;
      SplitOnAppend(c, '/', rest);
      assert [c] + ([cs[0]] + cs[1..] + [""]) == [c] + cs + [""];
    }
  }

  /** A leading blank component does not move the walk. */
  lemma WalkBlank(parts: seq<string>)
    ensures Walk([], [""] + parts) == Walk([], parts)
  {
    assert ([""] + parts)[1..] == parts;
  }

  lemma CleanOfSlashed(cs: seq<string>)
    requires AllProper(cs)
    ensures Walk([], SplitOn(Slashed(cs), '/')) == cs
  {
    hide Slashed, SplitOn;
    SplitSlashed("", cs);
    assert "" + Slashed(cs) == Slashed(cs);
    WalkBlank(cs);
    WalkProper([], cs);
    assert [] + cs == cs;
  }

  lemma CleanOfTrailing(cs: seq<string>)
    requires AllProper(cs)
    ensures Walk([], SplitOn(Slashed(cs) + ['/'], '/')) == cs
  {
    hide Slashed, SplitOn;
    SplitTrailing(cs);
    WalkBlank(cs + [""]);
    assert [""] + (cs + [""]) == [""] + cs + [""];
    WalkConcat([], cs, [""]);
    WalkProper([], cs);
    assert [] + cs == cs;
    assert [""][1..] == [];
  }

  lemma CleanOfDoubled(cs: seq<string>)
    requires AllProper(cs)
    ensures Walk([], SplitOn(['/'] + Slashed(cs), '/')) == cs
  {
    hide Slashed, SplitOn;
    SplitOnAppend("", '/', Slashed(cs));
    assert "" + ['/'] + Slashed(cs) == ['/'] + Slashed(cs);
    WalkBlank(SplitOn(Slashed(cs), '/'));
    CleanOfSlashed(cs);
  }

  /** Cleaning a root followed by a rooted path concatenates their components. */
  lemma CleanOfJoined(a: seq<string>, b: seq<string>)
    requires AllProper(a) && AllProper(b)
    ensures (Rooted(a) + Rooted(b))[0] == '/'
    ensures Clean(Rooted(a) + Rooted(b)) == Rooted(a + b)
  {
    hide SplitOn, Walk;
    SlashedConcat(a, b);
    assert AllProper(a + b);
    if b == [] {
      assert a + b == a;
      CleanOfTrailing(a);
      if a == [] {
        CleanOfTwoSlashes();
        assert Rooted(a) + Rooted(b) == "//";
      }
    } else if a == [] {
      assert a + b == b;
      CleanOfDoubled(b);
    } else {
      CleanOfSlashed(a + b);
    }
  }

  lemma CleanOfTwoSlashes()
    ensures Walk([], SplitOn("//", '/')) == []
  {
    hide SplitOn;
    SplitOnAppend("", '/', "/");
    SplitOnAppend("", '/', "");
    SplitOnFree("", '/');
    assert "" + ['/'] + "/" == "//" && "" + ['/'] + "" == "/";
    WalkBlank(["", ""]);
    WalkBlank([""]);
    WalkBlank([]);
    assert [""] + ["", ""] == ["", "", ""] && [""] + [""] == ["", ""] && [""] + [] == [""];
  }

  /** The components of the rooted normal form of an argument. */
  function Components(arg: string): (cs: seq<string>)
    ensures AllProper(cs)
  {
    WalkIsProper([], SplitOn(['/'] + arg, '/'));
    Walk([], SplitOn(['/'] + arg, '/'))
  }

  lemma WalkPieces(at: seq<string>, c: string)
    ensures Walk(at, [""]) == at && Walk(at, ["."]) == at
    ensures Walk([], [".."]) == []
    ensures Proper(c) ==> Walk(at, [c, ".."]) == at
  {
    assert [""][1..] == [] && ["."][1..] == [] && [".."][1..] == [] && [c, ".."][1..] == [".."];
    assert (at + [c])[..|at|] == at;
  }

  lemma PieceSplits()
    ensures SplitOn("", '/') == [""] && SplitOn(".", '/') == ["."] && SplitOn("..", '/') == [".."]
  {
    SplitOnFree("", '/');
    SplitOnFree(".", '/');
    SplitOnFree("..", '/');
  }

  /** A repeated slash and a "." component do not matter. */
  lemma CleanDrops(p: string, m: string, q: string)
    requires p != "" && p[0] == '/' && (m == "" || m == ".")
    ensures Clean(p + "/" + m + "/" + q) == Clean(p + "/" + q)
  {
    hide SplitOn, Walk;
    var ps, ms, qs := SplitOn(p, '/'), SplitOn(m, '/'), SplitOn(q, '/');
    PieceSplits();
    SplitOnConcat(p, '/', q);
    SplitOnConcat(p + "/" + m, '/', q);
    SplitOnConcat(p, '/', m);
    WalkConcat([], ps, qs);
    WalkConcat([], ps + ms, qs);
    WalkConcat([], ps, ms);
    WalkPieces(Walk([], ps), "");
  }

  /** Neither does a slash at the end. */
  lemma CleanTrailing(p: string)
    requires p != "" && p[0] == '/'
    ensures Clean(p + "/") == Clean(p)
  {
    hide SplitOn, Walk;
    PieceSplits();
    SplitOnConcat(p, '/', "");
    assert p + ['/'] + "" == p + "/";
    WalkConcat([], SplitOn(p, '/'), [""]);
    WalkPieces(Walk([], SplitOn(p, '/')), "");
  }

  lemma ProperSplits(c: string)
    requires Proper(c)
    ensures SplitOn(c, '/') == [c]
  {
    SplitOnFree(c, '/');
  }

  /** A ".." component takes back the one before it. */
  lemma CleanGoesUp(p: string, c: string, q: string)
    requires p != "" && p[0] == '/' && Proper(c)
    ensures Clean(p + "/" + c + "/../" + q) == Clean(p + "/" + q)
  {
    hide SplitOn, Walk, Proper;
    var ps, qs := SplitOn(p, '/'), SplitOn(q, '/');
    PieceSplits();
    ProperSplits(c);
    SplitOnConcat(p, '/', q);
    SplitOnConcat(p + "/" + c + "/..", '/', q);
    SplitOnConcat(p + "/" + c, '/', "..");
    SplitOnConcat(p, '/', c);
    assert p + "/" + c + "/.." == p + "/" + c + ['/'] + "..";
    assert p + "/" + c + "/../" + q == p + "/" + c + "/.." + ['/'] + q;
    assert ps + [c] + [".."] == ps + [c, ".."];
    WalkConcat([], ps, qs);
    WalkConcat([], ps + [c, ".."], qs);
    WalkConcat([], ps, [c, ".."]);
    WalkPieces(Walk([], ps), c);
  }

  /** Nothing is above the root. */
  lemma CleanAtRoot(q: string)
    ensures Clean("/../" + q) == Clean("/" + q)
  {
    hide SplitOn, Walk;
    var qs := SplitOn(q, '/');
    PieceSplits();
    SplitOnConcat("", '/', q);
    SplitOnConcat("", '/', "..");
    SplitOnConcat("/..", '/', q);
    assert "" + ['/'] + q == "/" + q && "" + ['/'] + ".." == "/.." && "/.." + ['/'] + q == "/../" + q;
    WalkConcat([], [""], qs);
    WalkConcat([], [""] + [".."], qs);
    WalkConcat([], [""], [".."]);
    WalkPieces([], "");
  }

  /** A path of proper components is clean already. */
  lemma CleanKeeps(cs: seq<string>)
    requires AllProper(cs) && cs != []
    ensures Slashed(cs) != "" && Slashed(cs)[0] == '/' && Clean(Slashed(cs)) == Slashed(cs)
  {
    hide SplitOn, Walk;
    CleanOfSlashed(cs);
  }

  // ---- the two normalisers ---------------------------------------------------

  const NUL: char := '\0'

  /** sanitizePath. */
  function SanitizePath(arg: string, dataRoot: string): string
    requires dataRoot != "" && dataRoot[0] == '/'
  {
    if NUL in arg then dataRoot
    else
      var clean := Clean(['/'] + arg);
      var joined := Clean(dataRoot + clean);
      if !(dataRoot + ['/'] <= joined) && joined != dataRoot then dataRoot else joined
  }

  /** joinDataPath. */
  function JoinDataPath(dataRoot: string, path: string): string
    requires dataRoot != "" && dataRoot[0] == '/'
  {
    if NUL in path then dataRoot
    else
      var clean := Clean(['/'] + path);
      if clean == "/" then dataRoot
      else
        var joined := Clean(dataRoot + clean);
        if !(dataRoot + ['/'] <= joined) && joined != dataRoot then dataRoot else joined
  }

  /** A cleaned rooted directory with these components. */
  predicate IsRoot(dataRoot: string, cs: seq<string>) { AllProper(cs) && dataRoot == Rooted(cs) }

  /** Cleaning yields such a directory. */
  lemma CleanIsRoot(path: string)
    requires path != "" && path[0] == '/'
    ensures IsRoot(Clean(path), Walk([], SplitOn(path, '/')))
  {
    WalkIsProper([], SplitOn(path, '/'));
  }

  lemma SlashedStartsWithSlash(cs: seq<string>)
    requires AllProper(cs) && cs != []
    ensures |Slashed(cs)| >= 2 && Slashed(cs)[0] == '/' && Slashed(cs)[1] != '/'
  {
    assert cs[0][0] in cs[0];
  }

  /** Below a root other than "/" the fallback is unreachable: the result is the root followed by the
      components of the argument. */
  lemma SanitizedBelowRoot(arg: string, dataRoot: string, cs: seq<string>)
    requires IsRoot(dataRoot, cs) && cs != []
    ensures SanitizePath(arg, dataRoot) == if '\0' in arg then dataRoot else Rooted(cs + Components(arg))
    ensures JoinDataPath(dataRoot, arg) == SanitizePath(arg, dataRoot)
  {
    var b := Components(arg);
    CleanOfJoined(cs, b);
    SlashedConcat(cs, b);
    SlashedStartsWithSlash(cs);
    assert cs + [] == cs;
    if b != [] {
      SlashedStartsWithSlash(b);
      assert Slashed(cs + b)[..|dataRoot| + 1] == dataRoot + ['/'];
    }
  }

  /** Below "/" the fallback always fires: the prefix test looks for "//". */
  lemma SanitizedBelowSlash(arg: string)
    ensures SanitizePath(arg, "/") == "/" && JoinDataPath("/", arg) == "/"
  {
    var b := Components(arg);
    assert IsRoot("/", []);
    CleanOfJoined([], b);
    assert [] + b == b;
    if b != [] {
      SlashedStartsWithSlash(b);
      assert "/" + ['/'] == "//";
      assert Slashed(b)[1] != "//"[1];
    }
  }

  /** The two normalisers agree on every argument for every cleaned rooted directory. */
  lemma NormalisersAgree(arg: string, dataRoot: string, cs: seq<string>)
    requires IsRoot(dataRoot, cs)
    ensures SanitizePath(arg, dataRoot) == JoinDataPath(dataRoot, arg)
  {
    if cs == [] {
      SanitizedBelowSlash(arg);
    } else {
      SanitizedBelowRoot(arg, dataRoot, cs);
    }
  }

  /** Confinement: the result is a cleaned directory whose components extend those of the root, so it has
      no ".." in it. */
  lemma Confined(arg: string, dataRoot: string, cs: seq<string>)
    requires IsRoot(dataRoot, cs)
    ensures Within(SanitizePath(arg, dataRoot), cs)
  {
    if cs == [] {
      SanitizedBelowSlash(arg);
      assert IsRoot("/", []);
    } else {
      SanitizedBelowRoot(arg, dataRoot, cs);
      var ds := if NUL in arg then cs else cs + Components(arg);
      assert IsRoot(SanitizePath(arg, dataRoot), ds) && cs <= ds;
    }
  }

  // ---- commands --------------------------------------------------------------

  function TrimSlash(s: string): string { if s != "" && s[0] == '/' then s[1..] else s }

  /** strings.Fields. */
  function Fields(s: string): seq<string> { FieldsFrom("", s) }

  function FieldsFrom(word: string, s: string): seq<string>
    decreases |s|
  {
    if s == "" then (if word == "" then [] else [word])
    else if IsSpace(s[0]) then (if word == "" then [] else [word]) + FieldsFrom("", s[1..])
    else FieldsFrom(word + [s[0]], s[1..])
  }

  /** A text of printable characters is one word, and white space between two texts separates their words. */
  lemma {:induction false} FieldsAcross(word: string, a: string, c: char, b: string)
    requires c in {' ', '\t', '\n', '\r'}
    ensures FieldsFrom(word, a + [c] + b) == FieldsFrom(word, a) + Fields(b)
    decreases |a|
  {
    var s := a + [c] + b;
    if a == "" {
      assert s[1..] == b;
    } else {
      assert s[1..] == a[1..] + [c] + b;
      FieldsAcross(if IsSpace(a[0]) then "" else word + [a[0]], a[1..], c, b);
    }
  }

  lemma FieldsSeparate(a: string, c: char, b: string)
    requires c in {' ', '\t', '\n', '\r'}
    ensures Fields(a + [c] + b) == Fields(a) + Fields(b)
  {
    FieldsAcross("", a, c, b);
  }

  lemma {:induction false} FieldsGather(word: string, w: string)
    requires word + w != "" && forall i :: 0 <= i < |w| ==> '!' <= w[i] <= '~'
    ensures FieldsFrom(word, w) == [word + w]
    decreases |w|
  {
    if w == "" {
      assert word + w == word;
    } else {
      assert word + w == word + [w[0]] + w[1..];
      FieldsGather(word + [w[0]], w[1..]);
    }
  }

  lemma FieldsOfWord(w: string)
    requires forall i :: 0 <= i < |w| ==> '!' <= w[i] <= '~'
    ensures Fields(w) == if w == "" then [] else [w]
  {
    if w != "" {
      FieldsGather("", w);
      assert "" + w == w;
    }
  }

  /** Every argument that is no flag is confined; the program name and the flags stay. */
  predicate ScpRewritten(parts: seq<string>, out: seq<string>, dataRoot: string)
    requires dataRoot != "" && dataRoot[0] == '/'
  {
    && |out| == |parts|
    && forall i :: 0 <= i < |out| ==>
         out[i] == if i >= 1 && !("-" <= parts[i]) then SanitizePath(parts[i], dataRoot) else parts[i]
  }

  /** rewriteSCPCommand. */
  method RewriteSCPCommand(cmd: string, dataRoot: string) returns (out: seq<string>)
    requires dataRoot != "" && dataRoot[0] == '/'
    ensures ScpRewritten(Fields(cmd), out, dataRoot)
  {
    hide SanitizePath, Fields;
    var parts := Fields(cmd);
    out := parts;
    if |parts| == 0 {
      return;
    }
    for i := 1 to |parts|
      invariant |out| == |parts|
      invariant forall j :: 0 <= j < |out| ==>
                  out[j] == if 1 <= j < i && !("-" <= parts[j]) then SanitizePath(parts[j], dataRoot) else parts[j]
    {
      if "-" <= out[i] {
        continue;
      }
      out := out[i := SanitizePath(out[i], dataRoot)];
    }
  }

  /** A "." argument stands before position i. */
  predicate DotBefore(parts: seq<string>, i: nat)
    requires i <= |parts|
  {
    exists j :: 1 <= j < i && parts[j] == "."
  }

  /** Every argument after the first ".", other than ".", is confined; the rest stays. */
  predicate RsyncRewritten(parts: seq<string>, out: seq<string>, dataRoot: string)
    requires dataRoot != "" && dataRoot[0] == '/'
  {
    && |out| == |parts|
    && forall i :: 0 <= i < |out| ==>
         out[i] == if parts[i] != "." && DotBefore(parts, i) then SanitizePath(parts[i], dataRoot) else parts[i]
  }

  /** rewriteRsyncCommand. */
  method RewriteRsyncCommand(cmd: string, dataRoot: string) returns (out: seq<string>)
    requires dataRoot != "" && dataRoot[0] == '/'
    ensures RsyncRewritten(Fields(cmd), out, dataRoot)
  {
    hide SanitizePath, Fields;
    var parts := Fields(cmd);
    out := parts;
    if |parts| == 0 {
      return;
    }
    var dotSeen := false;
    for i := 1 to |parts|
      invariant |out| == |parts|
      invariant dotSeen == DotBefore(parts, i)
      invariant forall j :: 0 <= j < |out| ==>
                  out[j] == if j < i && parts[j] != "." && DotBefore(parts, j) then SanitizePath(parts[j], dataRoot) else parts[j]
    {
      var arg := out[i];
      if arg == "." {
        dotSeen := true;
        assert DotBefore(parts, i + 1);
        continue;
      }
      assert DotBefore(parts, i + 1) <==> DotBefore(parts, i);
      if !dotSeen {
        continue;
      }
      out := out[i := SanitizePath(arg, dataRoot)];
    }
  }

  /** The start directory that buildCommand gives the sftp server inside the chroot. */
  function SftpDirectory(homePath: string): string {
    var chrootHome := "/home" + SanitizePath(TrimSlash(homePath), "/");
    if chrootHome == "/home/" then "/home" else chrootHome
  }

  /** The directory that scp and rsync arguments are confined to. */
  function UserDirectory(homePath: string): (dataRoot: string)
    ensures dataRoot != "" && dataRoot[0] == '/'
  {
    Clean("/data/" + TrimSlash(homePath))
  }

  datatype Protocol = Sftp | Scp | Rsync | Exec

  /** buildCommand: none for anything but sftp, scp and rsync. */
  method BuildCommand(protocol: Protocol, rawCmd: Option<string>, homePath: string) returns (command: Option<seq<string>>)
    ensures command.None? <==> protocol == Exec
    ensures protocol == Sftp ==>
              command == Some(["sftp-chroot", "--root", "/jail", "--bind", "/data:/home", "/.platform/sftp-server", "-e", "-d",
                               SftpDirectory(homePath)])
    ensures (protocol == Scp || protocol == Rsync) && rawCmd.None? ==>
              command == Some(["/usr/lib/ssh/sftp-server", "-e", "-d", UserDirectory(homePath)])
    ensures protocol == Scp && rawCmd.Some? ==>
              ScpRewritten(Fields(rawCmd.value), command.value, UserDirectory(homePath))
    ensures protocol == Rsync && rawCmd.Some? ==>
              RsyncRewritten(Fields(rawCmd.value), command.value, UserDirectory(homePath))
  {
    hide SanitizePath, Fields, ScpRewritten, RsyncRewritten, Walk, SplitOn;
    var dataRoot := UserDirectory(homePath);
    match protocol {
      case Sftp =>
        var chrootHome := "/home" + SanitizePath(TrimSlash(homePath), "/");
        if chrootHome == "/home/" {
          chrootHome := "/home";
        }
        return Some(["sftp-chroot", "--root", "/jail", "--bind", "/data:/home", "/.platform/sftp-server", "-e", "-d", chrootHome]);
      case Scp =>
        if rawCmd.Some? {
          var out := RewriteSCPCommand(rawCmd.value, dataRoot);
          return Some(out);
        }
        return Some(["/usr/lib/ssh/sftp-server", "-e", "-d", dataRoot]);
      case Rsync =>
        if rawCmd.Some? {
          var out := RewriteRsyncCommand(rawCmd.value, dataRoot);
          return Some(out);
        }
        return Some(["/usr/lib/ssh/sftp-server", "-e", "-d", dataRoot]);
      case Exec =>
        return None;
    }
  }

  // ---- which arguments are confined ------------------------------------------

  /** The path is a cleaned directory at or below the root with these components. */
  ghost predicate Within(path: string, cs: seq<string>) { exists ds :: IsRoot(path, ds) && cs <= ds }

  lemma WithinStartsWithSlash(path: string, cs: seq<string>)
    requires Within(path, cs)
    ensures path != "" && path[0] == '/'
  {
  }

  /** Of a rewritten scp command, the program name and the flags stay, and among the arguments exactly those
      that are no flags end up within the user's directory. */
  lemma ScpConfinesExactly(parts: seq<string>, out: seq<string>, dataRoot: string, cs: seq<string>, i: nat)
    requires IsRoot(dataRoot, cs) && dataRoot != "" && dataRoot[0] == '/'
    requires ScpRewritten(parts, out, dataRoot) && i < |parts|
    ensures i == 0 || "-" <= parts[i] ==> out[i] == parts[i]
    ensures i >= 1 ==> (Within(out[i], cs) <==> !("-" <= parts[i]))
  {
    hide SanitizePath, IsRoot;
    Confined(parts[i], dataRoot, cs);
    if Within(out[i], cs) { WithinStartsWithSlash(out[i], cs); }
  }

  /** Of a rewritten rsync command, exactly the arguments after the first ".", other than ".", are moved
      within the user's directory; every other one stays, wherever it points. */
  lemma RsyncConfinesExactly(parts: seq<string>, out: seq<string>, dataRoot: string, cs: seq<string>, i: nat)
    requires IsRoot(dataRoot, cs) && dataRoot != "" && dataRoot[0] == '/'
    requires RsyncRewritten(parts, out, dataRoot) && i < |parts|
    ensures var rewritten := parts[i] != "." && exists j :: 1 <= j < i && parts[j] == ".";
      && (!rewritten ==> out[i] == parts[i])
      && (Within(out[i], cs) <==> rewritten || Within(parts[i], cs))
  {
    hide SanitizePath, IsRoot;
    Confined(parts[i], dataRoot, cs);
  }

  /** A command without a "." argument comes back as it is. */
  lemma NoDotNoRewrite(parts: seq<string>, out: seq<string>, dataRoot: string)
    requires dataRoot != "" && dataRoot[0] == '/' && RsyncRewritten(parts, out, dataRoot)
    requires forall i :: 1 <= i < |parts| ==> parts[i] != "."
    ensures out == parts
  {
    hide SanitizePath;
  }

  // ---- where the user's directory lies ---------------------------------------

  /** At some point the ".." components outnumber the names before them by more than depth. */
  predicate Climbs(depth: nat, parts: seq<string>)
    decreases |parts|
  {
    if parts == [] then false
    else if parts[0] == "" || parts[0] == "." then Climbs(depth, parts[1..])
    else if parts[0] == ".." then depth == 0 || Climbs(depth - 1, parts[1..])
    else Climbs(depth + 1, parts[1..])
  }

  /** What comes after the ".." that climbs first. */
  function AfterClimb(depth: nat, parts: seq<string>): seq<string>
    requires Climbs(depth, parts)
    decreases |parts|
  {
    if parts[0] == "" || parts[0] == "." then AfterClimb(depth, parts[1..])
    else if parts[0] == ".." then (if depth == 0 then parts[1..] else AfterClimb(depth - 1, parts[1..]))
    else AfterClimb(depth + 1, parts[1..])
  }

  /** A walk that does not climb above its start stays below any base; one that does forgets a base of one
      component. */
  lemma {:induction false} WalkFromBase(base: string, at: seq<string>, parts: seq<string>)
    ensures Walk([base] + at, parts) ==
            if Climbs(|at|, parts) then Walk([], AfterClimb(|at|, parts)) else [base] + Walk(at, parts)
    decreases |parts|
  {
    if parts != [] {
      if parts[0] == "" || parts[0] == "." {
        WalkFromBase(base, at, parts[1..]);
      } else if parts[0] == ".." {
        if at == [] {
          assert ([base] + at)[..0] == [];
        } else {
          assert ([base] + at)[..|at|] == [base] + at[..|at| - 1];
          WalkFromBase(base, at[..|at| - 1], parts[1..]);
        }
      } else {
        assert [base] + at + [parts[0]] == [base] + (at + [parts[0]]);
        WalkFromBase(base, at + [parts[0]], parts[1..]);
      }
    }
  }

  /** The components of the user's directory: those of the home path below "data", unless the home path
      climbs above its start; then those of what follows the climb. */
  lemma UserDirectoryWalk(homePath: string)
    ensures var parts := SplitOn(TrimSlash(homePath), '/');
      UserDirectory(homePath) ==
      Rooted(if Climbs(0, parts) then Walk([], AfterClimb(0, parts)) else ["data"] + Walk([], parts))
  {
    hide Climbs, AfterClimb, SplitOn;
    var home := TrimSlash(homePath);
    var parts := SplitOn(home, '/');
    assert "/data/" + home == "" + ['/'] + ("data" + ['/'] + home);
    SplitOnAppend("data", '/', home);
    SplitOnAppend("", '/', "data" + ['/'] + home);
    WalkBlank(["data"] + parts);
    assert (["data"] + parts)[1..] == parts;
    WalkFromBase("data", [], parts);
    assert ["data"] + [] == ["data"] && [] + ["data"] == ["data"];
  }

  lemma RootedInjective(a: seq<string>, b: seq<string>)
    requires AllProper(a) && AllProper(b) && Rooted(a) == Rooted(b)
    ensures a == b
  {
    if a != [] { SlashedStartsWithSlash(a); }
    if b != [] { SlashedStartsWithSlash(b); }
    if a != [] && b != [] {
      CleanOfSlashed(a);
      CleanOfSlashed(b);
    }
  }

  /** The user's directory lies below /data if and only if the home path does not climb above its start, or
      comes back into "data" afterwards. */
  lemma BelowDataExactly(homePath: string)
    ensures var parts := SplitOn(TrimSlash(homePath), '/');
      Within(UserDirectory(homePath), ["data"])
      <==> !Climbs(0, parts) || ["data"] <= Walk([], AfterClimb(0, parts))
  {
    hide Climbs, AfterClimb, Rooted, SplitOn;
    var parts := SplitOn(TrimSlash(homePath), '/');
    var cs := if Climbs(0, parts) then Walk([], AfterClimb(0, parts)) else ["data"] + Walk([], parts);
    UserDirectoryWalk(homePath);
    ComponentsProper(homePath);
    assert IsRoot(UserDirectory(homePath), cs);
    if Within(UserDirectory(homePath), ["data"]) {
      var ds :| IsRoot(UserDirectory(homePath), ds) && ["data"] <= ds;
      RootedInjective(cs, ds);
    }
  }

  lemma ComponentsProper(homePath: string)
    ensures var parts := SplitOn(TrimSlash(homePath), '/');
      AllProper(if Climbs(0, parts) then Walk([], AfterClimb(0, parts)) else ["data"] + Walk([], parts))
  {
    hide SplitOn, Walk;
    var parts := SplitOn(TrimSlash(homePath), '/');
    WalkIsProper([], parts);
    assert Proper("data");
    if Climbs(0, parts) {
      AfterClimbFree(0, parts);
      WalkIsProper([], AfterClimb(0, parts));
    }
  }

  lemma {:induction false} AfterClimbFree(depth: nat, parts: seq<string>)
    requires Climbs(depth, parts) && forall i :: 0 <= i < |parts| ==> Free(parts[i], '/')
    ensures forall i :: 0 <= i < |AfterClimb(depth, parts)| ==> Free(AfterClimb(depth, parts)[i], '/')
    decreases |parts|
  {
    if parts[0] == "" || parts[0] == "." {
      AfterClimbFree(depth, parts[1..]);
    } else if parts[0] == ".." {
      if depth > 0 { AfterClimbFree(depth - 1, parts[1..]); }
    } else {
      AfterClimbFree(depth + 1, parts[1..]);
    }
  }

  /** The user's directory is a cleaned directory, so the two lemmas above are about every command. */
  lemma UserDirectoryIsRoot(homePath: string)
    ensures IsRoot(UserDirectory(homePath), Walk([], SplitOn("/data/" + TrimSlash(homePath), '/')))
  {
    CleanIsRoot("/data/" + TrimSlash(homePath));
  }

  /** A slash in front of the home path does not matter. */
  lemma HomeSlashOptional(homePath: string)
    ensures UserDirectory("/" + homePath) == UserDirectory(homePath)
  {
    hide Clean;
    assert ("/" + homePath)[1..] == homePath;
    if homePath != "" && homePath[0] == '/' {
      assert "/data/" + homePath == "/data" + "/" + "" + "/" + homePath[1..];
      assert "/data/" + homePath[1..] == "/data" + "/" + homePath[1..];
      CleanDrops("/data", "", homePath[1..]);
    }
  }

  /** For instance the home path "../etc" leaves it. */
  lemma HomeLeavesData()
    ensures UserDirectory("../etc") == "/etc" && !Within(UserDirectory("../etc"), ["data"])
  {
    hide Within, SplitOn;
    SplitOnAppend("..", '/', "etc");
    SplitOnFree("etc", '/');
    assert "../etc" == ".." + ['/'] + "etc" && ["..", "etc"][1..] == ["etc"];
    assert AfterClimb(0, ["..", "etc"]) == ["etc"];
    WalkProper([], ["etc"]);
    assert [] + ["etc"] == ["etc"] && ["etc"][1..] == [];
    UserDirectoryWalk("../etc");
    BelowDataExactly("../etc");
    assert Rooted(["etc"]) == "/etc";
  }

  /** The sftp start directory is "/home" for every home path, because the home path is sanitised below "/". */
  lemma SftpAlwaysStartsAtHome(homePath: string)
    ensures SftpDirectory(homePath) == "/home"
  {
    SanitizedBelowSlash(TrimSlash(homePath));
    assert "/home" + "/" == "/home/";
  }

  /** The start directory is the normalised home path below "/home" only for home paths that normalise to
      the root or hold a NUL; for every other home path the rest of the path is lost. */
  lemma SftpDirectoryExactly(homePath: string)
    ensures SftpDirectory(homePath) == SanitizePath(TrimSlash(homePath), "/home")
            <==> '\0' in TrimSlash(homePath) || Components(TrimSlash(homePath)) == []
  {
    hide SftpDirectory, SanitizePath, Components;
    SftpAlwaysStartsAtHome(homePath);
    HomeRoot();
    var cs := Components(TrimSlash(homePath));
    SanitizedBelowRoot(TrimSlash(homePath), "/home", ["home"]);
    SlashedConcat(["home"], cs);
    if cs != [] { SlashedStartsWithSlash(cs); }
  }

  lemma HomeRoot()
    ensures IsRoot("/home", ["home"]) && Slashed(["home"]) == "/home"
  {
    assert Proper("home");
    assert ["home"][1..] == [];
    assert ['/'] + "home" + "" == "/home";
  }

  /** For instance "/public_html" starts at "/home" and not at "/home/public_html". */
  lemma PublicHtmlIsLost()
    ensures SftpDirectory("/public_html") == "/home"
    ensures SanitizePath("public_html", "/home") == "/home/public_html"
  {
    hide Walk, SplitOn, SanitizePath, SftpDirectory, Components;
    SftpAlwaysStartsAtHome("/public_html");
    HomeRoot();
    SanitizedBelowRoot("public_html", "/home", ["home"]);
    assert Proper("public_html");
    ComponentsOfProper("public_html");
    assert ["home"] + ["public_html"] == ["home", "public_html"];
    assert Slashed(["home", "public_html"]) == "/home/public_html";
  }

  lemma ComponentsOfProper(c: string)
    requires Proper(c)
    ensures Components(c) == [c]
  {
    hide SplitOn, Walk;
    SplitOnAppend("", '/', c);
    SplitOnFree(c, '/');
    assert ['/'] + c == "" + ['/'] + c;
    WalkBlank([c]);
    WalkProper([], [c]);
  }
}
