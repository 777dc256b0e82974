/** Laws of the statement splitter. */
module SqlLaws {
  import opened Texts
  import opened SqlSplitter

  // ---- steps do not look past a harmless character ---------------------------

  lemma {:induction false} WordEndStable(a: string, t: string, i: nat)
    requires i <= |a|
    requires t != "" ==> !IsWord(t[0])
    ensures WordEnd(a + t, i) == WordEnd(a, i)
    decreases |a| - i
  {
    if i < |a| && IsWord(a[i]) { WordEndStable(a, t, i + 1); }
  }

  /** The two characters would be read together in this mode. */
  predicate Pairs(l: Lex, c: char, d: char) {
    match l
    case Normal => (c == '-' && d == '-') || (c == '/' && d == '*')
    case LineComment => false
    case BlockComment => c == '*' && d == '/'
    case SingleQuote => c == '\'' && d == '\''
    case DoubleQuote => c == '"' && d == '"'
    case DollarQuote(_) => false
  }

  /** Slices of a + t that lie in a. */
  lemma Slices(a: string, t: string, n: nat)
    requires n <= |a|
    ensures (a + t)[..n] == a[..n] && (a + t)[n..] == a[n..] + t
  {
  }

  /** The step at top level. */
  lemma NormalStable(a: string, t: string)
    requires a != ""
    requires t != "" ==> !IsWord(t[0]) && t[0] != '$'
    requires |a| == 1 && t != "" ==> !Pairs(Normal, a[0], t[0])
    ensures Next(Normal, a + t) == Next(Normal, a)
  {
    hide WordEnd, IsTag, OpensTag, StartsWith;
    SecondStable(Normal, a, t);
    OpensStable(a, t);
    Slices(a, t, 1);
    assert Pairs(Normal, '-', '-') && Pairs(Normal, '/', '*');
  }

  /** The step inside comments and quotes. */
  lemma InnerStable(l: Lex, a: string, t: string)
    requires a != "" && !l.Normal? && !l.DollarQuote?
    requires |a| == 1 && t != "" ==> !Pairs(l, a[0], t[0])
    ensures Next(l, a + t) == Next(l, a)
  {
    hide StartsWith;
    SecondStable(l, a, t);
    Slices(a, t, 1);
    if |a| > 1 { Slices(a, t, 2); }
    assert Pairs(BlockComment, '*', '/') && Pairs(SingleQuote, '\'', '\'') && Pairs(DoubleQuote, '"', '"');
    ShortHasNoSecond(a);
  }

  lemma ShortHasNoSecond(a: string)
    requires a != ""
    ensures forall d :: StartsWith(a[1..], d) ==> |a| > 1
  {
  }

  /** The step inside a dollar-quoted block. */
  lemma DollarStable(tag: string, a: string, t: string)
    requires a != "" && IsTag(tag)
    requires t != "" ==> !IsWord(t[0]) && t[0] != '$'
    ensures Next(DollarQuote(tag), a + t) == Next(DollarQuote(tag), a)
  {
    TagStable(tag, a, t);
    Slices(a, t, 1);
    if tag <= a { Slices(a, t, |tag|); }
  }

  /** The step taken on a is the step taken on a + t, unless t continues a word, a tag or a pair. */
  lemma NextStable(l: Lex, a: string, t: string)
    requires a != "" && ValidLex(l)
    requires t != "" ==> !IsWord(t[0]) && t[0] != '$'
    requires |a| == 1 && t != "" ==> !Pairs(l, a[0], t[0])
    ensures Next(l, a + t) == Next(l, a)
    ensures (a + t)[Next(l, a).eaten..] == a[Next(l, a).eaten..] + t
  {
    hide Next, IsTag, IsWord, Pairs;
    if l.Normal? {
      NormalStable(a, t);
    } else if l.DollarQuote? {
      DollarStable(l.tag, a, t);
    } else {
      InnerStable(l, a, t);
    }
    Slices(a, t, Next(l, a).eaten);
  }

  /** A pair is seen in a + t exactly when it is seen in a. */
  lemma SecondStable(l: Lex, a: string, t: string)
    requires a != "" && (|a| == 1 && t != "" ==> !Pairs(l, a[0], t[0]))
    ensures forall d :: Pairs(l, a[0], d) ==> (StartsWith((a + t)[1..], d) <==> StartsWith(a[1..], d))
  {
    assert |a| > 1 ==> (a + t)[1..][0] == a[1];
    assert |a| == 1 ==> (a + t)[1..] == t;
  }

  lemma OpensStable(a: string, t: string)
    requires a != "" && (t != "" ==> !IsWord(t[0]) && t[0] != '$')
    ensures OpensTag(a + t) <==> OpensTag(a)
    ensures OpensTag(a) ==> WordEnd(a + t, 1) == WordEnd(a, 1) && (a + t)[..WordEnd(a, 1) + 1] == a[..WordEnd(a, 1) + 1]
  {
    hide WordEnd;
    WordEndStable(a, t, 1);
    if OpensTag(a) { assert (a + t)[..WordEnd(a, 1) + 1] == a[..WordEnd(a, 1) + 1]; }
  }

  lemma TagStable(tag: string, a: string, t: string)
    requires IsTag(tag)
    requires t != "" ==> !IsWord(t[0]) && t[0] != '$'
    ensures tag <= a + t <==> tag <= a
  {
    var s := a + t;
    assert t != "" ==> s[|a|] == t[0];
    assert tag <= s ==> forall i :: 0 <= i < |tag| ==> tag[i] == s[i];
    if tag <= s && |tag| <= |a| {
      assert s[..|tag|] == a[..|tag|];
    }
    if tag <= a {
      assert s[..|tag|] == a[..|tag|];
    }
  }

  lemma FinalStep(l: Lex, rest: string)
    requires ValidLex(l)
    ensures rest == "" ==> FinalLex(l, rest) == l
    ensures rest != "" ==> FinalLex(l, rest) == FinalLex(Next(l, rest).lex, rest[Next(l, rest).eaten..])
  {
  }

  // ---- top-level terminators -------------------------------------------------

  lemma TerminatorStep(b: string)
    ensures Next(Normal, [';'] + b) == Effect(1, Normal, "", true)
  {
  }

  /** The splitter distributes over a terminator at top level, whatever follows it. */
  lemma {:induction false} ScanThroughTerminator(l: Lex, current: string, a: string, b: string)
    requires ValidLex(l) && FinalLex(l, a) == Normal
    ensures Scan(l, current, a + [';'] + b) == Scan(l, current, a) + SplitOf(b)
    decreases |a|
  {
    hide Scan, FinalLex, Next, Emit;
    var s := a + [';'] + b;
    ScanStep(l, current, s);
    ScanStep(l, current, a);
    FinalStep(l, a);
    if a == "" {
      assert s == [';'] + b && s[1..] == b;
      TerminatorStep(b);
    } else {
      assert s == a + ([';'] + b);
      NextStable(l, a, [';'] + b);
      var e := Next(l, a);
      var a' := a[e.eaten..];
      assert a' + ([';'] + b) == a' + [';'] + b;
      if e.ends {
        ScanThroughTerminator(Normal, "", a', b);
      } else {
        ScanThroughTerminator(e.lex, current + e.text, a', b);
      }
    }
  }

  lemma SplitDistributes(a: string, b: string)
    requires EndsNormal(a)
    ensures SplitOf(a + [';'] + b) == SplitOf(a) + SplitOf(b)
  {
    ScanThroughTerminator(Normal, "", a, b);
  }

  /** A text that is one whole statement, read on its own. */
  predicate OneStatement(s: string) { EndsNormal(s) && SplitOf(s) == [s] }

  /** Joining statements with terminators and splitting gives them back. */
  lemma {:induction false} SplitOfJoined(ss: seq<string>)
    requires forall i :: 0 <= i < |ss| ==> OneStatement(ss[i])
    ensures SplitOf(Join(ss, ';')) == ss
  {
    if |ss| > 1 {
      SplitOfJoined(ss[1..]);
      SplitDistributes(ss[0], Join(ss[1..], ';'));
      assert ss == [ss[0]] + ss[1..];
    }
  }

  // ---- comments --------------------------------------------------------------

  lemma {:induction false} LineSkip(current: string, body: string, b: string)
    requires '\n' !in body
    ensures Scan(LineComment, current, body + ['\n'] + b) == Scan(Normal, current + ['\n'], b)
  {
    var s := body + ['\n'] + b;
    ScanStep(LineComment, current, s);
    NextInComment(LineCommentMode, s);
    if body == "" {
      assert s[1..] == b;
    } else {
      assert s[0] == body[0] && body[0] in body;
      assert s[1..] == body[1..] + ['\n'] + b;
      assert current + "" == current;
      LineSkip(current, body[1..], b);
    }
  }

  /** A continuation that no top-level text before it can swallow, a trailing dash aside. */
  predicate Apart(t: string) { t != "" ==> !IsWord(t[0]) && t[0] !in {'$', '*', '\'', '"'} }

  predicate EndsInDash(a: string) { a != "" && a[|a| - 1] == '-' }

  /** After a text that ends normally, continuations that scan alike may replace each other; after a
      trailing dash they must also scan alike behind a dash. */
  lemma {:induction false} ReplaceTail(l: Lex, current: string, a: string, t: string, u: string)
    requires ValidLex(l) && FinalLex(l, a) == Normal && Apart(t) && Apart(u)
    requires forall c :: Scan(Normal, c, t) == Scan(Normal, c, u)
    requires EndsInDash(a) && (StartsWith(t, '-') || StartsWith(u, '-')) ==>
               forall c :: Scan(Normal, c, ['-'] + t) == Scan(Normal, c, ['-'] + u)
    ensures Scan(l, current, a + t) == Scan(l, current, a + u)
    decreases |a|
  {
    if a == "" {
      assert a + t == t && a + u == u;
    } else if l == Normal && a == "-" && (StartsWith(t, '-') || StartsWith(u, '-')) {
      assert a == ['-'];
    } else {
      NotPaired(l, a, t);
      NotPaired(l, a, u);
      FinalStep(l, a);
      hide Next, Scan, Pairs, FinalLex, IsWord, IsTag;
      ScanStep(l, current, a + t);
      ScanStep(l, current, a + u);
      NextStable(l, a, t);
      NextStable(l, a, u);
      var e := Next(l, a);
      assert EndsInDash(a[e.eaten..]) ==> EndsInDash(a);
      if e.ends {
        ReplaceTail(Normal, "", a[1..], t, u);
      } else {
        ReplaceTail(e.lex, current + e.text, a[e.eaten..], t, u);
      }
    }
  }

  lemma NotPaired(l: Lex, a: string, t: string)
    requires ValidLex(l) && a != "" && FinalLex(l, a) == Normal && Apart(t)
    requires l == Normal && a == "-" ==> !StartsWith(t, '-')
    ensures |a| == 1 && t != "" ==> !Pairs(l, a[0], t[0])
  {
    hide FinalLex;
    StarEndsNowhere(l, a);
  }

  lemma StarStays()
    ensures FinalLex(BlockComment, "*") == BlockComment
  {
    assert Next(BlockComment, "*") == Effect(1, BlockComment, "", false);
    assert "*"[1..] == "";
  }

  /** A text that ends normally does not end in the middle of closing a block comment. */
  lemma StarEndsNowhere(l: Lex, a: string)
    requires ValidLex(l) && FinalLex(l, a) == Normal
    ensures !(l == BlockComment && a == "*")
  {
    StarStays();
  }

  lemma LineOpening(t: string)
    requires |t| >= 2 && t[0] == '-' && t[1] == '-'
    ensures Next(Normal, t) == Effect(2, LineComment, "", false)
  {
  }

  lemma NewlineStep(u: string)
    requires u != "" && u[0] == '\n'
    ensures Next(Normal, u) == Effect(1, Normal, ['\n'], false)
  {
    assert u[..1] == ['\n'];
  }

  /** Scanning a line comment from its opening. */
  lemma LineCommentScan(current: string, body: string, b: string)
    requires '\n' !in body
    ensures Scan(Normal, current, "--" + body + ['\n'] + b) == Scan(Normal, current + ['\n'], b)
  {
    hide Next, Scan;
    var t := "--" + body + ['\n'] + b;
    ScanStep(Normal, current, t);
    LineOpening(t);
    assert t[2..] == body + ['\n'] + b && current + "" == current;
    LineSkip(current, body, b);
  }

  /** A line comment at top level is worth its newline, whatever its body, unless the text before it ends
      in a dash, with which its first dash would pair up. */
  lemma LineCommentIsNewline(a: string, body: string, b: string)
    requires EndsNormal(a) && '\n' !in body && !EndsInDash(a)
    ensures SplitOf(a + "--" + body + ['\n'] + b) == SplitOf(a + ['\n'] + b)
  {
    hide Scan, FinalLex;
    var t, u := "--" + body + ['\n'] + b, ['\n'] + b;
    forall c ensures Scan(Normal, c, t) == Scan(Normal, c, u) {
      LineCommentScan(c, body, b);
      ScanStep(Normal, c, u);
      NewlineStep(u);
      assert u[1..] == b;
    }
    ReplaceTail(Normal, "", a, t, u);
    assert a + t == a + "--" + body + ['\n'] + b && a + u == a + ['\n'] + b;
  }

  /** Whatever the text before it, the body of a line comment cannot matter. */
  lemma LineCommentBodyIrrelevant(a: string, body: string, body': string, b: string)
    requires EndsNormal(a) && '\n' !in body && '\n' !in body'
    ensures SplitOf(a + "--" + body + ['\n'] + b) == SplitOf(a + "--" + body' + ['\n'] + b)
  {
    hide Scan, FinalLex;
    var t, u := "--" + body + ['\n'] + b, "--" + body' + ['\n'] + b;
    assert ['-'] + t == "--" + ("-" + body) + ['\n'] + b && ['-'] + u == "--" + ("-" + body') + ['\n'] + b;
    forall c ensures Scan(Normal, c, t) == Scan(Normal, c, u) {
      LineCommentScan(c, body, b);
      LineCommentScan(c, body', b);
    }
    forall c ensures Scan(Normal, c, ['-'] + t) == Scan(Normal, c, ['-'] + u) {
      LineCommentScan(c, "-" + body, b);
      LineCommentScan(c, "-" + body', b);
    }
    ReplaceTail(Normal, "", a, t, u);
    assert a + t == a + "--" + body + ['\n'] + b && a + u == a + "--" + body' + ['\n'] + b;
  }

  /** The text holds no end of a block comment. */
  predicate NoBlockEnd(s: string) { forall i :: 0 <= i < |s| - 1 ==> !(s[i] == '*' && s[i + 1] == '/') }

  lemma {:induction false} BlockSkip(current: string, body: string, b: string)
    requires NoBlockEnd(body)
    ensures Scan(BlockComment, current, body + "*/" + b) == Scan(Normal, current, b)
  {
    var s := body + "*/" + b;
    ScanStep(BlockComment, current, s);
    NextInComment(BlockCommentMode, s);
    assert current + "" == current;
    if body == "" {
      assert s[2..] == b;
    } else {
      assert s[0] == body[0];
      assert s[1] == if |body| > 1 then body[1] else '*';
      assert s[1..] == body[1..] + "*/" + b;
      BlockSkip(current, body[1..], b);
    }
  }

  /** A character that never joins the one before it into a word, a tag or a pair. */
  predicate Neutral(c: char) { !IsWord(c) && c !in {'$', '-', '*', '/', '\'', '"'} }

  /** Scanning a block comment from its opening. */
  lemma BlockCommentScan(current: string, body: string, b: string)
    requires NoBlockEnd(body)
    ensures Scan(Normal, current, "/*" + body + "*/" + b) == Scan(Normal, current, b)
  {
    hide Scan;
    var t := "/*" + body + "*/" + b;
    ScanStep(Normal, current, t);
    assert t[2..] == body + "*/" + b && current + "" == current;
    BlockSkip(current, body, b);
  }

  /** A block comment at top level vanishes, whatever its body, before the end or a neutral character. */
  lemma BlockCommentVanishes(a: string, body: string, b: string)
    requires EndsNormal(a) && NoBlockEnd(body) && (b != "" ==> Neutral(b[0]))
    ensures SplitOf(a + "/*" + body + "*/" + b) == SplitOf(a + b)
  {
    hide Scan, FinalLex;
    var t := "/*" + body + "*/" + b;
    forall c ensures Scan(Normal, c, t) == Scan(Normal, c, b) {
      BlockCommentScan(c, body, b);
    }
    ReplaceTail(Normal, "", a, t, b);
    assert a + t == a + "/*" + body + "*/" + b;
  }

  /** Whatever stands around it, the body of a block comment cannot matter. */
  lemma BlockCommentBodyIrrelevant(a: string, body: string, body': string, b: string)
    requires EndsNormal(a) && NoBlockEnd(body) && NoBlockEnd(body')
    ensures SplitOf(a + "/*" + body + "*/" + b) == SplitOf(a + "/*" + body' + "*/" + b)
  {
    hide Scan, FinalLex;
    var t, u := "/*" + body + "*/" + b, "/*" + body' + "*/" + b;
    forall c ensures Scan(Normal, c, t) == Scan(Normal, c, u) {
      BlockCommentScan(c, body, b);
      BlockCommentScan(c, body', b);
    }
    ReplaceTail(Normal, "", a, t, u);
    assert a + t == a + "/*" + body + "*/" + b && a + u == a + "/*" + body' + "*/" + b;
  }

  // ---- comments that the file ends in ----------------------------------------

  lemma {:induction false} LineToEnd(current: string, body: string)
    requires '\n' !in body
    ensures Scan(LineComment, current, body) == Emit(current)
  {
    ScanStep(LineComment, current, body);
    if body != "" {
      NextInComment(LineCommentMode, body);
      assert body[0] in body && current + "" == current;
      LineToEnd(current, body[1..]);
    }
  }

  lemma {:induction false} BlockToEnd(current: string, body: string)
    requires NoBlockEnd(body)
    ensures Scan(BlockComment, current, body) == Emit(current)
  {
    ScanStep(BlockComment, current, body);
    if body != "" {
      NextInComment(BlockCommentMode, body);
      assert current + "" == current;
      BlockToEnd(current, body[1..]);
    }
  }

  /** A line comment in the last line is worth nothing, and the statement before it stays. */
  lemma LastLineComment(a: string, body: string)
    requires EndsNormal(a) && '\n' !in body && !EndsInDash(a)
    ensures SplitOf(a + "--" + body) == SplitOf(a)
  {
    hide Scan, FinalLex, Emit, Next;
    var t := "--" + body;
    forall c ensures Scan(Normal, c, t) == Scan(Normal, c, "") {
      ScanStep(Normal, c, t);
      ScanStep(Normal, c, "");
      LineOpening(t);
      assert t[2..] == body && c + "" == c;
      LineToEnd(c, body);
    }
    ReplaceTail(Normal, "", a, t, "");
    assert a + t == a + "--" + body && a + "" == a;
  }

  /** So is a block comment that is never closed. */
  lemma UnclosedBlockComment(a: string, body: string)
    requires EndsNormal(a) && NoBlockEnd(body)
    ensures SplitOf(a + "/*" + body) == SplitOf(a)
  {
    hide Scan, FinalLex, Emit;
    var t := "/*" + body;
    forall c ensures Scan(Normal, c, t) == Scan(Normal, c, "") {
      ScanStep(Normal, c, t);
      ScanStep(Normal, c, "");
      assert t[2..] == body && c + "" == c;
      BlockToEnd(c, body);
    }
    ReplaceTail(Normal, "", a, t, "");
    assert a + t == a + "/*" + body && a + "" == a;
  }

  // ---- the naive form --------------------------------------------------------

  /** No comments, quotes or dollar signs. */
  predicate Bare(s: string) {
    && (forall i :: 0 <= i < |s| ==> s[i] !in {'\'', '"', '$'})
    && (forall i :: 0 <= i < |s| - 1 ==> !(s[i] == '-' && s[i + 1] == '-') && !(s[i] == '/' && s[i + 1] == '*'))
  }

  /** Trim every part and drop the empty ones. */
  function Cleaned(parts: seq<string>): seq<string> {
    if parts == [] then [] else Emit(parts[0]) + Cleaned(parts[1..])
  }

  lemma {:induction false} ScanIsNaive(current: string, s: string)
    requires Bare(s)
    ensures var parts := SplitOn(s, ';');
      Scan(Normal, current, s) == Cleaned([current + parts[0]] + parts[1..])
    decreases |s|
  {
    hide Emit, Next, Scan;
    var parts := SplitOn(s, ';');
    ScanStep(Normal, current, s);
    if s == "" {
      assert current + "" == current;
      assert [current + parts[0]][1..] == [];
      assert [current + parts[0]] + parts[1..] == [current];
      assert Emit(current) + [] == Emit(current);
    } else {
      var rest := SplitOn(s[1..], ';');
      assert Bare(s[1..]);
      assert s[..1] == [s[0]];
      BareStep(s);
      if s[0] == ';' {
        ScanIsNaive("", s[1..]);
        assert parts == [""] + rest && parts[1..] == rest;
        assert current + "" == current && "" + rest[0] == rest[0];
        assert [rest[0]] + rest[1..] == rest;
        assert ([current] + rest)[1..] == rest;
      } else {
        ScanIsNaive(current + [s[0]], s[1..]);
        assert parts == [[s[0]] + rest[0]] + rest[1..] && parts[1..] == rest[1..];
        assert current + [s[0]] + rest[0] == current + parts[0];
      }
    }
  }

  lemma BareStep(s: string)
    requires Bare(s) && s != ""
    ensures Next(Normal, s) == if s[0] == ';' then Effect(1, Normal, "", true) else Effect(1, Normal, [s[0]], false)
  {
    assert s[..1] == [s[0]];
  }

  /** Without comments, quotes and dollar signs the splitter is the naive one. */
  lemma SplitIsNaive(s: string)
    requires Bare(s)
    ensures SplitOf(s) == Cleaned(SplitOn(s, ';'))
  {
    ScanIsNaive("", s);
    var parts := SplitOn(s, ';');
    assert "" + parts[0] == parts[0];
    assert [parts[0]] + parts[1..] == parts;
  }

  // ---- the output ------------------------------------------------------------

  lemma {:induction false} BareEndsNormal(s: string)
    requires Bare(s)
    ensures EndsNormal(s)
  {
    if s != "" {
      BareStep(s);
      FinalStep(Normal, s);
      assert Bare(s[1..]);
      BareEndsNormal(s[1..]);
    }
  }

  /** A trimmed non-empty text without comments, quotes, dollar signs and terminators is one statement. */
  lemma BareIsOneStatement(s: string)
    requires Bare(s) && ';' !in s && Trim(s) == s && s != ""
    ensures OneStatement(s)
  {
    BareEndsNormal(s);
    SplitIsNaive(s);
    SplitOnFree(s, ';');
    assert [s][1..] == [];
  }

  /** Splitting is not idempotent: a block comment is removed without a blank, so "-" and "-" run together
      into the opening of a line comment, and the output "--x" splits into nothing. */
  lemma NotIdempotent()
    ensures SplitOf("-/**/-x") == ["--x"]
    ensures SplitOf("--x") == []
  {
    DashesMeet();
    DashesOpen();
  }

  lemma DashesMeet()
    ensures SplitOf("-/**/-x") == ["--x"]
  {
    hide Scan, Next, Trim, Emit;
    DashesEmit();
    DashStep("", "/**/-x");
    BlockCommentScan("-", "", "-x");
    DashStep("-", "x");
    BareStep("x");
    ScanStep(Normal, "--", "x");
    ScanStep(Normal, "--x", "");
    assert "-/**/-x" == ['-'] + "/**/-x" && "-x" == ['-'] + "x";
    assert "/*" + "" + "*/" + "-x" == "/**/-x" && "x"[1..] == "";
    assert "" + ['-'] == "-" && "-" + ['-'] == "--" && "--" + ['x'] == "--x";
  }

  lemma DashesEmit()
    ensures Emit("--x") == ["--x"]
  {
    TrimOfTight(IsBlank, "--x");
  }

  lemma DashesOpen()
    ensures SplitOf("--x") == []
  {
    hide Scan, Next;
    LineOpening("--x");
    ScanStep(Normal, "", "--x");
    NextInComment(LineCommentMode, "x");
    ScanStep(LineComment, "", "x");
    ScanStep(LineComment, "", "");
    assert "--x"[2..] == "x" && "x"[1..] == "" && "" + "" == "";
  }

  lemma DashStep(current: string, rest: string)
    requires !StartsWith(rest, '-')
    ensures Scan(Normal, current, ['-'] + rest) == Scan(Normal, current + ['-'], rest)
  {
    hide Scan;
    ScanStep(Normal, current, ['-'] + rest);
    assert (['-'] + rest)[1..] == rest && (['-'] + rest)[..1] == ['-'];
  }
}
