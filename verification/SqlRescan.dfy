/** When the statements of a file split to themselves again. */
module SqlRescan {
  import opened Texts
  import opened SqlSplitter
  import opened SqlLaws
  import opened SqlGrammar

  // ---- one statement ---------------------------------------------------------

  predicate InComment(l: Lex) { l.LineComment? || l.BlockComment? }

  /** Scanning the text from this mode enters no comment and ends no statement. */
  predicate Uncut(l: Lex, rest: string)
    requires ValidLex(l)
    decreases |rest|
  {
    rest == "" ||
    (var e := Next(l, rest); !e.ends && !InComment(e.lex) && Uncut(e.lex, rest[e.eaten..]))
  }

  lemma UncutStep(l: Lex, rest: string)
    requires ValidLex(l)
    ensures Uncut(l, "")
    ensures rest != "" ==>
              var e := Next(l, rest); Uncut(l, rest) <==> !e.ends && !InComment(e.lex) && Uncut(e.lex, rest[e.eaten..])
  {
  }

  /** A step that neither enters a comment nor ends a statement keeps its text; the others drop some. */
  lemma StepKeeps(l: Lex, rest: string)
    requires ValidLex(l) && rest != ""
    ensures var e := Next(l, rest);
      && |e.text| <= e.eaten
      && (!InComment(l) && !e.ends && !InComment(e.lex) ==> e.text == rest[..e.eaten])
      && (!InComment(l) && (e.ends || InComment(e.lex)) ==> |e.text| < e.eaten)
  {
    hide WordEnd, IsTag, StartsWith;
  }

  lemma {:induction false} UncutKeepsText(l: Lex, current: string, rest: string)
    requires ValidLex(l) && !InComment(l) && Uncut(l, rest)
    ensures Scan(l, current, rest) == Emit(current + rest)
    decreases |rest|
  {
    hide Scan, Next, Emit;
    ScanStep(l, current, rest);
    if rest == "" {
      assert current + "" == current;
    } else {
      StepKeeps(l, rest);
      var e := Next(l, rest);
      UncutKeepsText(e.lex, current + e.text, rest[e.eaten..]);
      assert rest == rest[..e.eaten] + rest[e.eaten..];
      assert current + e.text + rest[e.eaten..] == current + rest;
    }
  }

  /** The characters of a list of statements. */
  function Total(ss: seq<string>): nat { if ss == [] then 0 else |ss[0]| + Total(ss[1..]) }

  lemma {:induction false} TotalConcat(a: seq<string>, b: seq<string>)
    ensures Total(a + b) == Total(a) + Total(b)
  {
    if a == [] {
      assert a + b == b;
    } else {
      assert (a + b)[1..] == a[1..] + b;
      TotalConcat(a[1..], b);
    }
  }

  lemma EmitShortens(current: string)
    ensures Total(Emit(current)) <= |current|
  {
    var lead, trail := TrimParts(IsBlank, current);
    assert [Trim(current)][1..] == [];
  }

  /** A scan never makes text, and one that cuts loses some. */
  lemma {:induction false} ScanShortens(l: Lex, current: string, rest: string)
    requires ValidLex(l)
    ensures Total(Scan(l, current, rest)) <= |current| + |rest|
    ensures !InComment(l) && !Uncut(l, rest) ==> Total(Scan(l, current, rest)) < |current| + |rest|
    decreases |rest|
  {
    hide Scan, Next, Emit, Total;
    ScanStep(l, current, rest);
    EmitShortens(current);
    if rest != "" {
      StepKeeps(l, rest);
      var e := Next(l, rest);
      if e.ends {
        ScanShortens(Normal, "", rest[1..]);
        TotalConcat(Emit(current), Scan(Normal, "", rest[1..]));
      } else {
        ScanShortens(e.lex, current + e.text, rest[e.eaten..]);
      }
    }
  }

  /** A trimmed statement splits to itself if and only if scanning it enters no comment and ends no
      statement. */
  lemma SelfSplitsExactly(s: string)
    requires s != "" && Trim(s) == s
    ensures SplitOf(s) == [s] <==> Uncut(Normal, s)
  {
    hide Scan, Uncut, Trim;
    if Uncut(Normal, s) {
      UncutKeepsText(Normal, "", s);
      assert "" + s == s;
    }
    ScanShortens(Normal, "", s);
    assert [s][1..] == [] && Total([s]) == |s|;
  }

  /** Splitting every statement of a list again. */
  function Resplit(ss: seq<string>): seq<string> { if ss == [] then [] else SplitOf(ss[0]) + Resplit(ss[1..]) }

  /** Splitting again gives the same list if and only if each statement splits to itself. */
  lemma {:induction false} ResplitExactly(ss: seq<string>)
    requires forall i :: 0 <= i < |ss| ==> ss[i] != "" && Trim(ss[i]) == ss[i]
    ensures Total(Resplit(ss)) <= Total(ss)
    ensures Resplit(ss) == ss <==> forall i :: 0 <= i < |ss| ==> SplitOf(ss[i]) == [ss[i]]
    ensures (exists i :: 0 <= i < |ss| && SplitOf(ss[i]) != [ss[i]]) ==> Total(Resplit(ss)) < Total(ss)
  {
    hide SplitOf, Trim, Uncut;
    if ss != [] {
      ResplitExactly(ss[1..]);
      SelfSplitsExactly(ss[0]);
      SplitShortens(ss[0]);
      TotalConcat(SplitOf(ss[0]), Resplit(ss[1..]));
      assert ss == [ss[0]] + ss[1..];
      if i :| 0 <= i < |ss| && SplitOf(ss[i]) != [ss[i]] {
        if i > 0 { assert ss[1..][i - 1] == ss[i]; }
      } else {
        assert forall i :: 0 <= i < |ss[1..]| ==> ss[1..][i] == ss[i + 1];
      }
    }
  }

  lemma SplitShortens(s: string)
    ensures Total(SplitOf(s)) <= |s|
    ensures !Uncut(Normal, s) ==> Total(SplitOf(s)) < |s|
  {
    ScanShortens(Normal, "", s);
  }

  // ---- blanks around a statement ---------------------------------------------

  lemma BlankIsPlain(c: char)
    requires IsBlank(c)
    ensures !IsWord(c) && c !in {'$', '-', '*', '/', '\'', '"', ';'}
  {
  }

  lemma {:induction false} UncutLead(lead: string, rest: string)
    requires AllBlank(IsBlank, lead)
    ensures Uncut(Normal, lead + rest) <==> Uncut(Normal, rest)
    decreases |lead|
  {
    hide Uncut, OpensTag, IsBlank;
    if lead == "" {
      assert lead + rest == rest;
    } else {
      BlankIsPlain(lead[0]);
      assert (lead + rest)[1..] == lead[1..] + rest;
      UncutStep(Normal, lead + rest);
      NoTagWithoutDollar(lead + rest);
      UncutLead(lead[1..], rest);
    }
  }

  lemma NoTagWithoutDollar(s: string)
    requires s != "" && s[0] != '$'
    ensures !OpensTag(s)
  {
  }

  lemma {:induction false} BlanksAreUncut(l: Lex, s: string)
    requires ValidLex(l) && !InComment(l) && AllBlank(IsBlank, s)
    ensures Uncut(l, s)
    decreases |s|
  {
    hide Uncut, OpensTag, IsBlank;
    UncutStep(l, s);
    if s != "" {
      BlankIsPlain(s[0]);
      NoTagWithoutDollar(s);
      BlanksAreUncut(l, s[1..]);
    }
  }

  lemma {:induction false} UncutTrail(l: Lex, a: string, trail: string)
    requires ValidLex(l) && !InComment(l) && AllBlank(IsBlank, trail)
    ensures Uncut(l, a + trail) <==> Uncut(l, a)
    decreases |a|
  {
    hide Uncut, Next, IsBlank, IsWord, IsTag;
    UncutStep(l, a);
    UncutStep(l, a + trail);
    if a == "" {
      assert a + trail == trail;
      BlanksAreUncut(l, trail);
    } else {
      if trail != "" { BlankIsPlain(trail[0]); }
      NextStable(l, a, trail);
      var e := Next(l, a);
      if !InComment(e.lex) { UncutTrail(e.lex, a[e.eaten..], trail); }
    }
  }

  lemma UncutTrimmed(s: string)
    ensures Uncut(Normal, Trim(s)) <==> Uncut(Normal, s)
  {
    hide Uncut, TrimBy, IsBlank;
    var lead, trail := TrimParts(IsBlank, s);
    assert s == lead + (Trim(s) + trail);
    UncutLead(lead, Trim(s) + trail);
    UncutTrail(Normal, Trim(s), trail);
  }

  // ---- a whole file ----------------------------------------------------------

  /** What is left of a piece: block comments go, a line comment leaves its newline. */
  function StripOf(p: Piece): seq<Piece> {
    match p
    case Line(_) => [Code('\n')]
    case Block(_) => []
    case _ => [p]
  }

  /** The stripped pieces between the terminators. */
  function Segments(ps: seq<Piece>): (r: seq<seq<Piece>>)
    ensures |r| >= 1
  {
    if ps == [] then [[]]
    else if ps[0].Terminator? then [[]] + Segments(ps[1..])
    else var r := Segments(ps[1..]); [StripOf(ps[0]) + r[0]] + r[1..]
  }

  function EmitAll(segs: seq<seq<Piece>>): seq<string> {
    if segs == [] then [] else Emit(RenderAll(segs[0])) + EmitAll(segs[1..])
  }

  lemma {:induction false} RenderConcat(a: seq<Piece>, b: seq<Piece>)
    ensures RenderAll(a + b) == RenderAll(a) + RenderAll(b)
  {
    hide Render;
    if a == [] {
      assert a + b == b;
    } else {
      assert (a + b)[1..] == a[1..] + b;
      RenderConcat(a[1..], b);
    }
  }

  lemma StripRenders(p: Piece)
    requires !p.Terminator?
    ensures RenderAll(StripOf(p)) == Kept(p)
  {
    assert [p][1..] == [] && [Code('\n')][1..] == [];
    assert Render(p) + "" == Render(p) && Render(Code('\n')) + "" == "\n";
  }

  /** The statements of a file are what its segments render to. */
  lemma {:induction false} StatementsOfSegments(current: string, ps: seq<Piece>)
    ensures Statements(current, ps) == Emit(current + RenderAll(Segments(ps)[0])) + EmitAll(Segments(ps)[1..])
    decreases |ps|
  {
    hide Emit, Render, Kept, StripOf;
    var segs := Segments(ps);
    if ps == [] {
      assert current + "" == current;
      assert segs[1..] == [];
    } else if ps[0].Terminator? {
      StatementsOfSegments("", ps[1..]);
      assert current + "" == current && segs[1..] == Segments(ps[1..]);
      assert "" + RenderAll(Segments(ps[1..])[0]) == RenderAll(Segments(ps[1..])[0]);
    } else {
      var rest := Segments(ps[1..]);
      StatementsOfSegments(current + Kept(ps[0]), ps[1..]);
      StripRenders(ps[0]);
      RenderConcat(StripOf(ps[0]), rest[0]);
      assert current + Kept(ps[0]) + RenderAll(rest[0]) == current + (Kept(ps[0]) + RenderAll(rest[0]));
    }
  }

  lemma {:induction false} EmittedFrom(segs: seq<seq<Piece>>, s: string)
    ensures s in EmitAll(segs) <==> exists i :: 0 <= i < |segs| && s in Emit(RenderAll(segs[i]))
  {
    hide Emit, RenderAll;
    if segs != [] {
      EmittedFrom(segs[1..], s);
      if i :| 0 <= i < |segs| && s in Emit(RenderAll(segs[i])) {
        if i > 0 { assert segs[1..][i - 1] == segs[i]; }
      }
      if i :| 0 <= i < |segs[1..]| && s in Emit(RenderAll(segs[1..][i])) {
        assert segs[i + 1] == segs[1..][i];
      }
    }
  }

  /** Every statement of a file splits to itself if and only if, with block comments deleted and line
      comments turned into newlines, no text between two terminators has a comment or a terminator. */
  lemma StatementsSplitAgain(ps: seq<Piece>)
    requires WellFormed(ps)
    ensures (forall s :: s in SplitOf(RenderAll(ps)) ==> SplitOf(s) == [s])
            <==> forall i :: 0 <= i < |Segments(ps)| ==> Uncut(Normal, RenderAll(Segments(ps)[i]))
  {
    hide Uncut, RenderAll, WellFormed, Segments, SplitOf, Trim;
    var segs := Segments(ps);
    SplitReadsGrammar(ps);
    StatementsOfSegments("", ps);
    assert "" + RenderAll(segs[0]) == RenderAll(segs[0]) && segs == [segs[0]] + segs[1..];
    assert SplitOf(RenderAll(ps)) == EmitAll(segs);
    forall i | 0 <= i < |segs|
      ensures Uncut(Normal, RenderAll(segs[i])) <==> forall s :: s in Emit(RenderAll(segs[i])) ==> SplitOf(s) == [s]
    {
      SegmentSplitsAgain(segs[i]);
    }
    forall s ensures s in EmitAll(segs) <==> exists i :: 0 <= i < |segs| && s in Emit(RenderAll(segs[i])) {
      EmittedFrom(segs, s);
    }
    hide EmitAll, Emit;
  }

  lemma SegmentSplitsAgain(seg: seq<Piece>)
    ensures Uncut(Normal, RenderAll(seg)) <==> forall s :: s in Emit(RenderAll(seg)) ==> SplitOf(s) == [s]
  {
    hide Uncut, RenderAll, SplitOf, TrimBy;
    var k := RenderAll(seg);
    UncutTrimmed(k);
    UncutStep(Normal, "");
    TrimTwice(IsBlank, k);
    if Trim(k) != "" { SelfSplitsExactly(Trim(k)); }
  }

  // ---- which joins cut -------------------------------------------------------

  /** The piece is fine on its own: what Clear asks of it whatever follows. */
  ghost predicate Lone(p: Piece) {
    match p
    case Code(c) => c !in {';', '\'', '"'}
    case Quoted(q, _) => q == '\'' || q == '"'
    case Dollar(tag, body) => IsTag(tag) && FirstAtEnd(tag, body)
    case _ => false
  }

  /** The piece and the text after it open a comment. */
  predicate CommentJoin(p: Piece, after: string) {
    p.Code? && ((p.c == '-' && StartsWith(after, '-')) || (p.c == '/' && StartsWith(after, '*')))
  }

  /** The piece and the text after it open a dollar quote or double a quote. */
  predicate QuoteJoin(p: Piece, after: string) {
    (p.Code? && OpensTag([p.c] + after)) || (p.Quoted? && StartsWith(after, p.q))
  }

  lemma ClearParts(p: Piece, after: string)
    requires Lone(p)
    ensures Clear(p, after) <==> !CommentJoin(p, after) && !QuoteJoin(p, after)
  {
  }

  lemma UncutQuoteStep(q: char, s: string)
    requires (q == '\'' || q == '"') && s != ""
    ensures Uncut(LexOfQuote(q), s) <==>
            if s[0] != q then Uncut(LexOfQuote(q), s[1..])
            else if StartsWith(s[1..], q) then Uncut(LexOfQuote(q), s[2..])
            else Uncut(Normal, s[1..])
  {
    hide Uncut, Next;
    UncutStep(LexOfQuote(q), s);
    NextInQuote(q, s);
  }

  lemma {:induction false} UncutQuoted(q: char, content: string, after: string)
    requires (q == '\'' || q == '"') && !StartsWith(after, q)
    ensures Uncut(LexOfQuote(q), Doubled(content, q) + [q] + after) <==> Uncut(Normal, after)
  {
    hide Uncut, LexOfQuote, Doubled;
    UncutQuoteStep(q, Doubled(content, q) + [q] + after);
    if content == "" {
      DoubledNone(q);
      assert "" + [q] + after == [q] + after && ([q] + after)[1..] == after;
    } else {
      var first := if content[0] == q then [q, q] else [content[0]];
      DoubledFirst(content[0], content[1..], q);
      assert content == [content[0]] + content[1..];
      Regroup(first, Doubled(content[1..], q), [q], "", after);
      UncutQuoted(q, content[1..], after);
    }
  }

  lemma UncutDollarStep(tag: string, s: string)
    requires IsTag(tag) && s != ""
    ensures Uncut(DollarQuote(tag), s) <==>
            if tag <= s then Uncut(Normal, s[|tag|..]) else Uncut(DollarQuote(tag), s[1..])
  {
    hide Uncut, Next, IsTag;
    UncutStep(DollarQuote(tag), s);
    NextInDollar(tag, s);
  }

  lemma {:induction false} UncutDollar(tag: string, body: string, after: string)
    requires IsTag(tag) && FirstAtEnd(tag, body)
    ensures Uncut(DollarQuote(tag), body + tag + after) <==> Uncut(Normal, after)
    decreases |body|
  {
    assert tag != "";
    hide Uncut, FirstAtEnd, IsTag;
    UncutDollarStep(tag, body + tag + after);
    if body == "" {
      assert body + tag == tag && (tag + after)[|tag|..] == after;
    } else {
      LaterAtEnd(tag, body, after);
      HeadAndTail("", body, tag, after);
      UncutDollar(tag, body[1..], after);
    }
  }

  lemma UncutCode(c: char, after: string)
    requires Clear(Code(c), after)
    ensures Uncut(Normal, [c] + after) <==> Uncut(Normal, after)
  {
    hide Uncut, OpensTag;
    UncutStep(Normal, [c] + after);
    assert ([c] + after)[1..] == after;
  }

  lemma UncutQuotedPiece(q: char, content: string, after: string)
    requires Clear(Quoted(q, content), after)
    ensures Uncut(Normal, Render(Quoted(q, content)) + after) <==> Uncut(Normal, after)
  {
    hide Uncut, Doubled, OpensTag;
    var s := Render(Quoted(q, content)) + after;
    NoTagWithoutDollar(s);
    UncutStep(Normal, s);
    assert s[1..] == Doubled(content, q) + [q] + after;
    UncutQuoted(q, content, after);
  }

  lemma UncutDollarPiece(tag: string, body: string, after: string)
    requires Clear(Dollar(tag, body), after)
    ensures Uncut(Normal, Render(Dollar(tag, body)) + after) <==> Uncut(Normal, after)
  {
    hide Uncut, FirstAtEnd, WordEnd;
    var s := Render(Dollar(tag, body)) + after;
    UncutStep(Normal, s);
    assert s == tag + (body + tag + after);
    WordEndOfTag(tag, body + tag + after, 1);
    assert s[..|tag|] == tag && s[|tag|..] == body + tag + after && s[|tag| - 1] == '$';
    UncutDollar(tag, body, after);
  }

  /** A clear piece cuts nothing. */
  lemma UncutPiece(p: Piece, after: string)
    requires Lone(p) && Clear(p, after)
    ensures Uncut(Normal, Render(p) + after) <==> Uncut(Normal, after)
  {
    hide Uncut, Doubled, FirstAtEnd, OpensTag, IsTag;
    match p
    case Code(c) => UncutCode(c, after);
    case Quoted(q, content) => UncutQuotedPiece(q, content, after);
    case Dollar(tag, body) => UncutDollarPiece(tag, body, after);
  }

  lemma CommentJoinCuts(p: Piece, after: string)
    requires CommentJoin(p, after)
    ensures !Uncut(Normal, Render(p) + after)
  {
    var s := Render(p) + after;
    assert s[1..] == after;
    UncutStep(Normal, s);
  }

  ghost predicate AllLone(seg: seq<Piece>) { forall i :: 0 <= i < |seg| ==> Lone(seg[i]) }

  /** Some piece and the text after it open a dollar quote or double a quote. */
  predicate QuoteJoins(seg: seq<Piece>) {
    seg != [] && (QuoteJoin(seg[0], RenderAll(seg[1..])) || QuoteJoins(seg[1..]))
  }

  /** Some piece and the text after it open a comment. */
  predicate CommentJoins(seg: seq<Piece>) {
    seg != [] && (CommentJoin(seg[0], RenderAll(seg[1..])) || CommentJoins(seg[1..]))
  }

  /** Where no join opens a dollar quote or doubles a quote, a segment is uncut if and only if no join opens
      a comment. */
  lemma {:induction false} JoinsDecide(seg: seq<Piece>)
    requires AllLone(seg) && !QuoteJoins(seg)
    ensures Uncut(Normal, RenderAll(seg)) <==> !CommentJoins(seg)
  {
    UncutStep(Normal, "");
    if seg != [] {
      hide Uncut, Render, Lone, QuoteJoin, CommentJoin, Clear;
      ClearParts(seg[0], RenderAll(seg[1..]));
      JoinsDecide(seg[1..]);
      if CommentJoin(seg[0], RenderAll(seg[1..])) {
        CommentJoinCuts(seg[0], RenderAll(seg[1..]));
      } else {
        UncutPiece(seg[0], RenderAll(seg[1..]));
      }
    }
  }

  /** Whatever follows it, the first join that is not clear cuts when it opens a comment. */
  lemma {:induction false} FirstJoinCuts(seg: seq<Piece>, k: nat)
    requires k < |seg| && CommentJoin(seg[k], RenderAll(seg[k + 1..]))
    requires forall i :: 0 <= i < k ==> Lone(seg[i]) && Clear(seg[i], RenderAll(seg[i + 1..]))
    ensures !Uncut(Normal, RenderAll(seg))
  {
    hide Uncut, Render, Lone, CommentJoin, Clear;
    if k == 0 {
      CommentJoinCuts(seg[0], RenderAll(seg[1..]));
    } else {
      UncutPiece(seg[0], RenderAll(seg[1..]));
      assert forall i :: 0 <= i < k ==> seg[1..][i] == seg[i + 1] && seg[1..][i + 1..] == seg[i + 2..];
      FirstJoinCuts(seg[1..], k - 1);
    }
  }

  // ---- whole files split again -----------------------------------------------

  /** Splitting the output again changes nothing if and only if every segment is uncut. */
  lemma IdempotentExactly(ps: seq<Piece>)
    requires WellFormed(ps)
    ensures Resplit(SplitOf(RenderAll(ps))) == SplitOf(RenderAll(ps))
            <==> forall i :: 0 <= i < |Segments(ps)| ==> Uncut(Normal, RenderAll(Segments(ps)[i]))
  {
    hide Uncut, RenderAll, WellFormed, Segments, Scan, Trim;
    var ss := SplitOf(RenderAll(ps));
    OutputIsTrimmed(Normal, "", RenderAll(ps));
    forall i | 0 <= i < |ss| ensures ss[i] != "" && Trim(ss[i]) == ss[i] {
      assert ss[i] in Scan(Normal, "", RenderAll(ps));
    }
    ResplitExactly(ss);
    StatementsSplitAgain(ps);
  }

  lemma {:induction false} SegmentsAreLone(ps: seq<Piece>, i: nat)
    requires WellFormed(ps) && i < |Segments(ps)|
    ensures AllLone(Segments(ps)[i])
    decreases |ps|
  {
    hide Clear, RenderAll, Lone;
    if ps == [] {
      assert Segments(ps)[i] == [];
    } else if ps[0].Terminator? {
      if i > 0 { SegmentsAreLone(ps[1..], i - 1); }
    } else {
      SegmentsAreLone(ps[1..], i);
      NewlineIsClear("");
      if !ps[0].Line? && !ps[0].Block? { ClearIsLone(ps[0], RenderAll(ps[1..])); }
    }
  }

  /** Told by the joins: when deleting block comments opens no dollar quote and doubles no quote, splitting
      the output again changes nothing if and only if it brings no two characters together that open a
      comment. */
  lemma IdempotentByJoins(ps: seq<Piece>)
    requires WellFormed(ps)
    requires forall i :: 0 <= i < |Segments(ps)| ==> !QuoteJoins(Segments(ps)[i])
    ensures Resplit(SplitOf(RenderAll(ps))) == SplitOf(RenderAll(ps))
            <==> forall i :: 0 <= i < |Segments(ps)| ==> !CommentJoins(Segments(ps)[i])
  {
    hide Uncut, WellFormed, Segments, SplitOf, RenderAll, QuoteJoins, CommentJoins, AllLone;
    IdempotentExactly(ps);
    forall i | 0 <= i < |Segments(ps)|
      ensures Uncut(Normal, RenderAll(Segments(ps)[i])) <==> !CommentJoins(Segments(ps)[i])
    {
      SegmentsAreLone(ps, i);
      JoinsDecide(Segments(ps)[i]);
    }
  }

  ghost predicate NoBlocks(ps: seq<Piece>) { forall i :: 0 <= i < |ps| ==> !ps[i].Block? }

  lemma RenderHead(p: Piece)
    ensures p.Terminator? ==> Render(p) != "" && Render(p)[0] == ';'
    ensures p.Line? ==> Render(p) != "" && Render(p)[0] == '-'
    ensures Render(Code('\n')) == "\n"
  {
  }

  /** The first segment, piece by piece. */
  lemma FirstSegment(ps: seq<Piece>)
    requires NoBlocks(ps) && ps != []
    ensures ps[0].Terminator? ==> RenderAll(Segments(ps)[0]) == ""
    ensures ps[0].Line? ==> RenderAll(Segments(ps)[0]) == "\n" + RenderAll(Segments(ps[1..])[0])
    ensures !ps[0].Terminator? && !ps[0].Line? ==>
              RenderAll(Segments(ps)[0]) == Render(ps[0]) + RenderAll(Segments(ps[1..])[0])
  {
    hide Render;
    var first := Segments(ps[1..])[0];
    RenderHead(ps[0]);
    assert ([Code('\n')] + first)[1..] == first && ([ps[0]] + first)[1..] == first;
  }

  /** A file without block comments and its first segment agree up to the first line comment or terminator,
      of which the segment keeps at most a newline. */
  lemma {:induction false} SameStart(ps: seq<Piece>) returns (u: string, v: string, w: string)
    requires NoBlocks(ps)
    ensures RenderAll(ps) == u + v && RenderAll(Segments(ps)[0]) == u + w
    ensures v == "" || v[0] == '-' || v[0] == ';'
    ensures w == "" || w[0] == '\n'
  {
    hide Render, Segments;
    if ps == [] {
      NoPieces();
      u, v, w := "", "", "";
    } else {
      RenderHead(ps[0]);
      FirstSegment(ps);
      if ps[0].Terminator? || ps[0].Line? {
        u, v, w := "", RenderAll(ps), RenderAll(Segments(ps)[0]);
        assert "" + v == v && "" + w == w;
      } else {
        var u';
        u', v, w := SameStart(ps[1..]);
        u := Render(ps[0]) + u';
        assert u + v == Render(ps[0]) + (u' + v) && u + w == Render(ps[0]) + (u' + w);
      }
    }
  }

  lemma NoPieces()
    ensures RenderAll(Segments([])[0]) == "" && RenderAll([]) == ""
  {
  }

  /** A piece that is clear before one of two such texts is clear before the other. */
  lemma ClearCarries(p: Piece, u: string, v: string, w: string)
    requires Lone(p) && Clear(p, u + v)
    requires v == "" || v[0] == '-' || v[0] == ';'
    requires w == "" || w[0] == '\n'
    ensures Clear(p, u + w)
  {
    if p.Code? {
      OpensStable([p.c] + u, v);
      OpensStable([p.c] + u, w);
      assert [p.c] + u + v == [p.c] + (u + v) && [p.c] + u + w == [p.c] + (u + w);
    }
    hide OpensTag, FirstAtEnd, IsTag;
    assert u != "" ==> (u + v)[0] == u[0] == (u + w)[0];
    assert u == "" ==> u + w == w;
  }

  lemma {:induction false} FirstIsUncut(ps: seq<Piece>)
    requires WellFormed(ps) && NoBlocks(ps)
    ensures Uncut(Normal, RenderAll(Segments(ps)[0]))
  {
    hide Uncut, Render, Clear;
    UncutStep(Normal, "");
    if ps != [] && !ps[0].Terminator? {
      var first := Segments(ps[1..])[0];
      FirstIsUncut(ps[1..]);
      var p := if ps[0].Line? then Code('\n') else ps[0];
      assert ([p] + first)[1..] == first;
      var u, v, w := SameStart(ps[1..]);
      if ps[0].Line? {
        NewlineIsClear(RenderAll(first));
      } else {
        ClearIsLone(ps[0], RenderAll(ps[1..]));
        ClearCarries(p, u, v, w);
      }
      UncutPiece(p, RenderAll(first));
    }
  }

  lemma NewlineIsClear(after: string)
    ensures Lone(Code('\n')) && Clear(Code('\n'), after)
  {
  }

  lemma ClearIsLone(p: Piece, after: string)
    requires Clear(p, after) && !p.Line? && !p.Block? && !p.Terminator?
    ensures Lone(p)
  {
  }

  lemma {:induction false} AllUncut(ps: seq<Piece>, i: nat)
    requires WellFormed(ps) && NoBlocks(ps) && i < |Segments(ps)|
    ensures Uncut(Normal, RenderAll(Segments(ps)[i]))
    decreases |ps|
  {
    hide Uncut, Clear, RenderAll;
    if i == 0 {
      FirstIsUncut(ps);
    } else {
      assert ps != [];
      AllUncut(ps[1..], if ps[0].Terminator? then i - 1 else i);
    }
  }

  /** Only block comments break idempotence: without them, splitting the output again changes nothing. */
  lemma NoBlocksIdempotent(ps: seq<Piece>)
    requires WellFormed(ps) && NoBlocks(ps)
    ensures Resplit(SplitOf(RenderAll(ps))) == SplitOf(RenderAll(ps))
  {
    hide WellFormed, NoBlocks, Segments, RenderAll, SplitOf, Uncut;
    IdempotentExactly(ps);
    forall i | 0 <= i < |Segments(ps)| ensures Uncut(Normal, RenderAll(Segments(ps)[i])) {
      AllUncut(ps, i);
    }
  }
}
