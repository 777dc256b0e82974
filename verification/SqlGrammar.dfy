/** An independent grammar of migration files, and the splitter as its reader. */
module SqlGrammar {
  import opened SqlSplitter
  import opened SqlLaws

  /** The pieces of a file: plain characters, quoted texts (with the quotes inside not yet doubled),
      dollar-quoted blocks, comments and terminators. */
  datatype Piece =
    | Code(c: char)
    | Quoted(q: char, content: string)
    | Dollar(tag: string, body: string)
    | Line(body: string)
    | Block(body: string)
    | Terminator

  function Doubled(content: string, q: char): string {
    if content == "" then ""
    else (if content[0] == q then [q, q] else [content[0]]) + Doubled(content[1..], q)
  }

  function Render(p: Piece): string
  {
    match p
    case Code(c) => [c]
    case Quoted(q, content) => [q] + Doubled(content, q) + [q]
    case Dollar(tag, body) => tag + body + tag
    case Line(body) => "--" + body + "\n"
    case Block(body) => "/*" + body + "*/"
    case Terminator => ";"
  }

  function RenderAll(ps: seq<Piece>): string {
    if ps == [] then "" else Render(ps[0]) + RenderAll(ps[1..])
  }

  /** The tag does not occur in body + tag before its end. */
  ghost predicate FirstAtEnd(tag: string, body: string) {
    forall i :: 0 <= i < |body| ==> !(tag <= (body + tag)[i..])
  }

  /** The piece stands for itself before the text that follows it: no two of its neighbours' characters
      run together into something else. */
  ghost predicate Clear(p: Piece, after: string) {
    match p
    case Code(c) =>
      c !in {';', '\'', '"'} && !(c == '-' && StartsWith(after, '-')) && !(c == '/' && StartsWith(after, '*')) &&
      !OpensTag([c] + after)
    case Quoted(q, content) => (q == '\'' || q == '"') && !StartsWith(after, q)
    case Dollar(tag, body) => IsTag(tag) && FirstAtEnd(tag, body)
    case Line(body) => '\n' !in body
    case Block(body) => NoBlockEnd(body)
    case Terminator => true
  }

  ghost predicate WellFormed(ps: seq<Piece>) {
    ps == [] || (Clear(ps[0], RenderAll(ps[1..])) && WellFormed(ps[1..]))
  }

  /** What a piece contributes to its statement: comments nothing, a line comment its newline. */
  function Kept(p: Piece): string {
    match p
    case Line(_) => "\n"
    case Block(_) => ""
    case Terminator => ""
    case _ => Render(p)
  }

  /** The statements of a piece list: the kept text between terminators, trimmed, empty ones dropped. */
  function Statements(current: string, ps: seq<Piece>): seq<string>
    decreases |ps|
  {
    if ps == [] then Emit(current)
    else if ps[0].Terminator? then Emit(current) + Statements("", ps[1..])
    else Statements(current + Kept(ps[0]), ps[1..])
  }

  // ---- the splitter reads the grammar ----------------------------------------

  function LexOfQuote(q: char): Lex { if q == '\'' then SingleQuote else DoubleQuote }

  /** The steps inside a quoted text: other characters, a doubled quote, the closing quote. */
  lemma NextInQuote(q: char, rest: string)
    requires (q == '\'' || q == '"') && rest != ""
    ensures Next(LexOfQuote(q), rest) ==
            if rest[0] != q then Effect(1, LexOfQuote(q), [rest[0]], false)
            else if StartsWith(rest[1..], q) then Effect(2, LexOfQuote(q), [q, q], false)
            else Effect(1, Normal, [q], false)
  {
    assert rest[..1] == [rest[0]];
    if StartsWith(rest[1..], q) { assert rest[..2] == [rest[0], rest[1]]; }
  }

  lemma DoubledNone(q: char)
    ensures Doubled("", q) == ""
  {
  }

  lemma DoubledFirst(c: char, content: string, q: char)
    ensures Doubled([c] + content, q) == (if c == q then [q, q] else [c]) + Doubled(content, q)
  {
    assert ([c] + content)[1..] == content;
  }

  lemma QuoteStep(q: char, current: string, s: string)
    requires (q == '\'' || q == '"') && s != ""
    ensures Scan(LexOfQuote(q), current, s) ==
            if s[0] != q then Scan(LexOfQuote(q), current + [s[0]], s[1..])
            else if StartsWith(s[1..], q) then Scan(LexOfQuote(q), current + [q, q], s[2..])
            else Scan(Normal, current + [q], s[1..])
  {
    hide Scan, Next;
    ScanStep(LexOfQuote(q), current, s);
    NextInQuote(q, s);
  }

  lemma {:induction false} ScanQuoted(q: char, content: string, current: string, after: string)
    requires (q == '\'' || q == '"') && !StartsWith(after, q)
    ensures Scan(LexOfQuote(q), current, Doubled(content, q) + [q] + after)
            == Scan(Normal, current + Doubled(content, q) + [q], after)
  {
    hide Scan, LexOfQuote, Doubled;
    QuoteStep(q, current, Doubled(content, q) + [q] + after);
    if content == "" {
      DoubledNone(q);
      assert "" + [q] + after == [q] + after && ([q] + after)[1..] == after;
      assert current + "" + [q] == current + [q];
    } else {
      var first := if content[0] == q then [q, q] else [content[0]];
      DoubledFirst(content[0], content[1..], q);
      assert content == [content[0]] + content[1..];
      Regroup(first, Doubled(content[1..], q), [q], current, after);
      ScanQuoted(q, content[1..], current + first, after);
    }
  }

  lemma Regroup(first: string, rest: string, close: string, current: string, after: string)
    requires first != ""
    ensures (first + rest + close + after)[0] == first[0]
    ensures (first + rest + close + after)[|first|..] == rest + close + after
    ensures (first + rest + close + after)[1..] == first[1..] + rest + close + after
    ensures current + first + rest + close == current + (first + rest) + close
  {
  }

  /** The steps inside a dollar-quoted block. */
  lemma NextInDollar(tag: string, rest: string)
    requires IsTag(tag) && rest != ""
    ensures Next(DollarQuote(tag), rest) ==
            if tag <= rest then Effect(|tag|, Normal, tag, false) else Effect(1, DollarQuote(tag), [rest[0]], false)
  {
    assert rest[..1] == [rest[0]];
    if tag <= rest { assert rest[..|tag|] == tag; }
  }

  lemma LaterAtEnd(tag: string, body: string, after: string)
    requires FirstAtEnd(tag, body) && body != ""
    ensures FirstAtEnd(tag, body[1..]) && !(tag <= body + tag + after)
  {
    assert !(tag <= (body + tag)[0..]);
    assert (body + tag + after)[..|tag|] == (body + tag)[..|tag|];
    forall i | 0 <= i < |body[1..]| ensures !(tag <= (body[1..] + tag)[i..]) {
      assert (body[1..] + tag)[i..] == (body + tag)[i + 1..];
    }
  }

  lemma HeadAndTail(current: string, body: string, tag: string, after: string)
    requires body != ""
    ensures (body + tag + after)[0] == body[0] && (body + tag + after)[1..] == body[1..] + tag + after
    ensures current + [body[0]] + body[1..] + tag == current + body + tag
  {
    assert body == [body[0]] + body[1..];
  }

  /** One step inside a dollar-quoted block whose tag is not next. */
  lemma DollarStep(tag: string, current: string, s: string)
    requires IsTag(tag) && s != ""
    ensures Scan(DollarQuote(tag), current, s) ==
            if tag <= s then Scan(Normal, current + tag, s[|tag|..]) else Scan(DollarQuote(tag), current + [s[0]], s[1..])
  {
    hide Scan, Next, IsTag;
    ScanStep(DollarQuote(tag), current, s);
    NextInDollar(tag, s);
  }

  lemma {:induction false} ScanDollar(tag: string, body: string, current: string, after: string)
    requires IsTag(tag) && FirstAtEnd(tag, body)
    ensures Scan(DollarQuote(tag), current, body + tag + after) == Scan(Normal, current + body + tag, after)
    decreases |body|
  {
    assert tag != "";
    hide Scan, FirstAtEnd, IsTag;
    DollarStep(tag, current, body + tag + after);
    if body == "" {
      assert body + tag == tag && (tag + after)[|tag|..] == after && current + body == current;
    } else {
      LaterAtEnd(tag, body, after);
      HeadAndTail(current, body, tag, after);
      ScanDollar(tag, body[1..], current + [body[0]], after);
    }
  }

  lemma {:induction false} WordEndOfTag(tag: string, after: string, i: nat)
    requires IsTag(tag) && 1 <= i <= |tag| - 1
    ensures WordEnd(tag + after, i) == |tag| - 1
    decreases |tag| - i
  {
    if i < |tag| - 1 { WordEndOfTag(tag, after, i + 1); }
  }

  lemma ScanCode(c: char, current: string, after: string)
    requires Clear(Code(c), after)
    ensures Scan(Normal, current, [c] + after) == Scan(Normal, current + [c], after)
  {
    hide Scan, OpensTag;
    var s := [c] + after;
    ScanStep(Normal, current, s);
    assert s[..1] == [c] && s[1..] == after;
  }

  lemma ScanQuotedPiece(q: char, content: string, current: string, after: string)
    requires Clear(Quoted(q, content), after)
    ensures Scan(Normal, current, Render(Quoted(q, content)) + after) == Scan(Normal, current + Render(Quoted(q, content)), after)
  {
    hide Scan, Doubled, WordEnd;
    var rest := Doubled(content, q) + [q] + after;
    var s := [q] + rest;
    ScanStep(Normal, current, s);
    assert s[..1] == [q] && s[1..] == rest;
    ScanQuoted(q, content, current + [q], after);
    assert Render(Quoted(q, content)) + after == s;
    assert current + [q] + Doubled(content, q) + [q] == current + Render(Quoted(q, content));
  }

  lemma ScanDollarPiece(tag: string, body: string, current: string, after: string)
    requires Clear(Dollar(tag, body), after)
    ensures Scan(Normal, current, Render(Dollar(tag, body)) + after) == Scan(Normal, current + Render(Dollar(tag, body)), after)
  {
    hide Scan, FirstAtEnd;
    var rest := body + tag + after;
    var s := tag + rest;
    ScanStep(Normal, current, s);
    WordEndOfTag(tag, rest, 1);
    assert s[..|tag|] == tag && s[|tag|..] == rest && s[0] == '$' && s[|tag| - 1] == '$';
    ScanDollar(tag, body, current + tag, after);
    assert Render(Dollar(tag, body)) + after == s;
    assert current + tag + body + tag == current + Render(Dollar(tag, body));
  }

  /** One clear piece, whatever follows. */
  lemma ScanPiece(p: Piece, current: string, after: string)
    requires Clear(p, after)
    ensures Scan(Normal, current, Render(p) + after) ==
            if p.Terminator? then Emit(current) + Scan(Normal, "", after) else Scan(Normal, current + Kept(p), after)
  {
    hide Scan, Emit;
    match p
    case Code(c) => ScanCode(c, current, after);
    case Quoted(q, content) => ScanQuotedPiece(q, content, current, after);
    case Dollar(tag, body) => ScanDollarPiece(tag, body, current, after);
    case Line(body) =>
      assert Render(p) + after == "--" + body + ['\n'] + after;
      LineCommentScan(current, body, after);
    case Block(body) =>
      BlockCommentScan(current, body, after);
      assert current + "" == current;
    case Terminator =>
      ScanStep(Normal, current, ";" + after);
      assert (";" + after)[1..] == after;
  }

  lemma {:induction false} ScanPieces(ps: seq<Piece>, current: string)
    requires WellFormed(ps)
    ensures Scan(Normal, current, RenderAll(ps)) == Statements(current, ps)
  {
    hide Clear, Kept, Render;
    if ps != [] {
      ScanPiece(ps[0], current, RenderAll(ps[1..]));
      if ps[0].Terminator? {
        ScanPieces(ps[1..], "");
      } else {
        ScanPieces(ps[1..], current + Kept(ps[0]));
      }
    }
  }

  /** The splitter computes the statements of the grammar. */
  lemma SplitReadsGrammar(ps: seq<Piece>)
    requires WellFormed(ps)
    ensures SplitOf(RenderAll(ps)) == Statements("", ps)
  {
    ScanPieces(ps, "");
  }

  // ---- the grammar covers every file -----------------------------------------

  /** A quoted text that is closed in the end has a content and a rest. */
  lemma {:induction false} ReadQuoted(q: char, rest: string) returns (content: string, after: string)
    requires q == '\'' || q == '"'
    requires FinalLex(LexOfQuote(q), rest) == Normal
    ensures rest == Doubled(content, q) + [q] + after && !StartsWith(after, q)
    ensures FinalLex(Normal, after) == Normal
    decreases |rest|
  {
    hide FinalLex, Doubled;
    FinalStep(LexOfQuote(q), rest);
    if rest[0] != q {
      var c: string;
      c, after := ReadQuoted(q, rest[1..]);
      content := [rest[0]] + c;
      DoubledFirst(rest[0], c, q);
      assert rest == [rest[0]] + rest[1..];
    } else if StartsWith(rest[1..], q) {
      var c: string;
      c, after := ReadQuoted(q, rest[2..]);
      content := [q] + c;
      DoubledFirst(q, c, q);
      assert rest == [q, q] + rest[2..];
    } else {
      content, after := "", rest[1..];
      DoubledNone(q);
      assert rest == [q] + rest[1..];
    }
  }

  lemma {:induction false} ReadDollar(tag: string, rest: string) returns (body: string, after: string)
    requires IsTag(tag) && FinalLex(DollarQuote(tag), rest) == Normal
    ensures rest == body + tag + after && FirstAtEnd(tag, body)
    ensures FinalLex(Normal, after) == Normal
    decreases |rest|
  {
    hide FinalLex, IsTag;
    FinalStep(DollarQuote(tag), rest);
    if tag <= rest {
      body, after := "", rest[|tag|..];
    } else {
      var b: string;
      b, after := ReadDollar(tag, rest[1..]);
      body := [rest[0]] + b;
      assert rest == body + tag + after;
      forall i | 0 <= i < |body| ensures !(tag <= (body + tag)[i..]) {
        if i == 0 {
          assert rest[..|tag|] == (body + tag)[..|tag|];
        } else {
          assert (body + tag)[i..] == (b + tag)[i - 1..];
        }
      }
    }
  }

  lemma {:induction false} ReadLine(rest: string) returns (body: string, after: string)
    requires FinalLex(LineComment, rest) == Normal
    ensures rest == body + "\n" + after && '\n' !in body
    ensures FinalLex(Normal, after) == Normal
    decreases |rest|
  {
    hide FinalLex;
    FinalStep(LineComment, rest);
    if rest[0] == '\n' {
      body, after := "", rest[1..];
    } else {
      var b: string;
      b, after := ReadLine(rest[1..]);
      body := [rest[0]] + b;
      assert rest == [rest[0]] + rest[1..];
    }
  }

  lemma {:induction false} ReadBlock(rest: string) returns (body: string, after: string)
    requires FinalLex(BlockComment, rest) == Normal
    ensures rest == body + "*/" + after && NoBlockEnd(body)
    ensures FinalLex(Normal, after) == Normal
    decreases |rest|
  {
    hide FinalLex;
    FinalStep(BlockComment, rest);
    if rest[0] == '*' && StartsWith(rest[1..], '/') {
      body, after := "", rest[2..];
      assert rest == "*/" + rest[2..];
    } else {
      var b: string;
      b, after := ReadBlock(rest[1..]);
      body := [rest[0]] + b;
      assert rest == [rest[0]] + rest[1..];
    }
  }

  lemma ReadDollarPiece(rest: string) returns (p: Piece, after: string)
    requires OpensTag(rest) && FinalLex(DollarQuote(rest[..WordEnd(rest, 1) + 1]), rest[WordEnd(rest, 1) + 1..]) == Normal
    ensures rest == Render(p) + after && Clear(p, after)
    ensures |after| < |rest|
    ensures FinalLex(Normal, after) == Normal
  {
    hide FinalLex, WordEnd, FirstAtEnd;
    var k := WordEnd(rest, 1) + 1;
    var body: string;
    body, after := ReadDollar(rest[..k], rest[k..]);
    p := Dollar(rest[..k], body);
    assert rest == rest[..k] + rest[k..];
  }

  lemma ReadLinePiece(rest: string) returns (p: Piece, after: string)
    requires FinalLex(LineComment, rest) == Normal
    ensures "--" + rest == Render(p) + after && Clear(p, after) && FinalLex(Normal, after) == Normal
    ensures |after| <= |rest|
  {
    hide FinalLex;
    var body: string;
    body, after := ReadLine(rest);
    p := Line(body);
  }

  lemma ReadBlockPiece(rest: string) returns (p: Piece, after: string)
    requires FinalLex(BlockComment, rest) == Normal
    ensures "/*" + rest == Render(p) + after && Clear(p, after) && FinalLex(Normal, after) == Normal
    ensures |after| <= |rest|
  {
    hide FinalLex, NoBlockEnd;
    var body: string;
    body, after := ReadBlock(rest);
    p := Block(body);
  }

  lemma ReadQuotedPiece(rest: string) returns (p: Piece, after: string)
    requires rest != "" && (rest[0] == '\'' || rest[0] == '"') && FinalLex(LexOfQuote(rest[0]), rest[1..]) == Normal
    ensures rest == Render(p) + after && Clear(p, after) && FinalLex(Normal, after) == Normal
    ensures |after| < |rest|
  {
    hide FinalLex, Doubled;
    var content: string;
    content, after := ReadQuoted(rest[0], rest[1..]);
    p := Quoted(rest[0], content);
    assert rest == [rest[0]] + rest[1..];
  }

  /** A plain character or a terminator. */
  lemma ReadOne(rest: string) returns (p: Piece)
    requires rest != "" && Next(Normal, rest).lex == Normal
    ensures rest == Render(p) + rest[1..] && Clear(p, rest[1..]) && Next(Normal, rest).eaten == 1
  {
    hide OpensTag;
    assert rest == [rest[0]] + rest[1..];
    p := if rest[0] == ';' then Terminator else Code(rest[0]);
  }

  /** Where a step from top level leads. */
  lemma NextAtTop(rest: string)
    requires rest != ""
    ensures var e := Next(Normal, rest);
      match e.lex
      case LineComment => e.eaten == 2 && rest == "--" + rest[2..]
      case BlockComment => e.eaten == 2 && rest == "/*" + rest[2..]
      case SingleQuote => e.eaten == 1 && rest[0] == '\''
      case DoubleQuote => e.eaten == 1 && rest[0] == '"'
      case DollarQuote(tag) => OpensTag(rest) && e.eaten == WordEnd(rest, 1) + 1 && tag == rest[..e.eaten]
      case Normal => e.eaten == 1
  {
    hide WordEnd;
    if Next(Normal, rest).lex.LineComment? { assert rest == "--" + rest[2..]; }
    if Next(Normal, rest).lex.BlockComment? { assert rest == "/*" + rest[2..]; }
  }

  /** Every non-empty file that ends at top level starts with a clear piece. */
  lemma ReadPiece(rest: string) returns (p: Piece, after: string)
    requires rest != "" && FinalLex(Normal, rest) == Normal
    ensures rest == Render(p) + after && Clear(p, after)
    ensures |after| < |rest|
    ensures FinalLex(Normal, after) == Normal
  {
    hide FinalLex, Next, OpensTag, Clear, Render, WordEnd;
    FinalStep(Normal, rest);
    NextAtTop(rest);
    match Next(Normal, rest).lex {
      case LineComment => p, after := ReadLinePiece(rest[2..]);
      case BlockComment => p, after := ReadBlockPiece(rest[2..]);
      case SingleQuote => p, after := ReadQuotedPiece(rest);
      case DoubleQuote => p, after := ReadQuotedPiece(rest);
      case DollarQuote(_) => p, after := ReadDollarPiece(rest);
      case Normal =>
        p := ReadOne(rest);
        after := rest[1..];
    }
  }

  /** Every file whose scan ends at top level is the rendering of a well-formed piece list. */
  lemma {:induction false} GrammarCovers(sql: string) returns (ps: seq<Piece>)
    requires EndsNormal(sql)
    ensures WellFormed(ps) && RenderAll(ps) == sql
    decreases |sql|
  {
    if sql == "" {
      ps := [];
    } else {
      var p, after := ReadPiece(sql);
      var rest := GrammarCovers(after);
      ps := [p] + rest;
      assert ps[1..] == rest;
    }
  }
}
