/** The migration statement splitter: the scanning loop and the scan it computes. */
module SqlSplitter {
  import opened Texts

  // ---- text ------------------------------------------------------------------

  /** White space and line terminators that String.prototype.trim removes. */
  predicate IsBlank(c: char) {
    c in {'\t', '\n', '\U{000B}', '\U{000C}', '\r', ' ', '\U{00A0}', '\U{1680}', '\U{2028}', '\U{2029}', '\U{202F}',
          '\U{205F}', '\U{3000}', '\U{FEFF}'} || '\U{2000}' <= c <= '\U{200A}'
  }

  function Trim(s: string): string { TrimBy(IsBlank, s) }

  /** A statement ready for the output: trimmed, dropped when nothing is left. */
  function Emit(current: string): seq<string> {
    if Trim(current) != "" then [Trim(current)] else []
  }

  predicate IsWord(c: char) { 'a' <= c <= 'z' || 'A' <= c <= 'Z' || '0' <= c <= '9' || c == '_' }

  // ---- one step --------------------------------------------------------------

  /** What the scanner is inside of; a dollar-quoted block remembers its tag. */
  datatype Lex = Normal | LineComment | BlockComment | SingleQuote | DoubleQuote | DollarQuote(tag: string)

  /** A dollar tag: '$', word characters, '$'. */
  predicate IsTag(t: string) {
    |t| >= 2 && t[0] == '$' && t[|t| - 1] == '$' && forall i :: 1 <= i < |t| - 1 ==> IsWord(t[i])
  }

  predicate ValidLex(l: Lex) { l.DollarQuote? ==> IsTag(l.tag) }

  /** One step: characters consumed, the next mode, the text kept, and whether a statement ends. */
  datatype Effect = Effect(eaten: nat, lex: Lex, text: string, ends: bool)

  /** The end of the run of word characters from index i on. */
  function WordEnd(s: string, i: nat): (k: nat)
    requires i <= |s|
    ensures i <= k <= |s| && (k < |s| ==> !IsWord(s[k])) && forall j :: i <= j < k ==> IsWord(s[j])
    decreases |s| - i
  {
    if i < |s| && IsWord(s[i]) then WordEnd(s, i + 1) else i
  }

  /** The text starts with a complete opening tag. */
  predicate OpensTag(s: string) {
    s != "" && s[0] == '$' && WordEnd(s, 1) < |s| && s[WordEnd(s, 1)] == '$'
  }

  predicate StartsWith(s: string, c: char) { s != "" && s[0] == c }

  function Keep(rest: string, l: Lex, n: nat): Effect
    requires n <= |rest|
  {
    Effect(n, l, rest[..n], false)
  }

  /** The step the scanner takes in mode l on the text that is left. */
  function Next(l: Lex, rest: string): (e: Effect)
    requires rest != "" && ValidLex(l)
    ensures 1 <= e.eaten <= |rest| && ValidLex(e.lex)
    ensures e.ends ==> l.Normal? && e.lex.Normal? && e.eaten == 1
  {
    var c := rest[0];
    match l
    case Normal =>
      if c == '-' && StartsWith(rest[1..], '-') then Effect(2, LineComment, "", false)
      else if c == '/' && StartsWith(rest[1..], '*') then Effect(2, BlockComment, "", false)
      else if c == '\'' then Keep(rest, SingleQuote, 1)
      else if c == '"' then Keep(rest, DoubleQuote, 1)
      else if OpensTag(rest) then Keep(rest, DollarQuote(rest[..WordEnd(rest, 1) + 1]), WordEnd(rest, 1) + 1)
      else if c == ';' then Effect(1, Normal, "", true)
      else Keep(rest, Normal, 1)
    case LineComment =>
      if c == '\n' then Keep(rest, Normal, 1) else Effect(1, LineComment, "", false)
    case BlockComment =>
      if c == '*' && StartsWith(rest[1..], '/') then Effect(2, Normal, "", false) else Effect(1, BlockComment, "", false)
    case SingleQuote =>
      if c != '\'' then Keep(rest, SingleQuote, 1)
      else if StartsWith(rest[1..], '\'') then Keep(rest, SingleQuote, 2)
      else Keep(rest, Normal, 1)
    case DoubleQuote =>
      if c != '"' then Keep(rest, DoubleQuote, 1)
      else if StartsWith(rest[1..], '"') then Keep(rest, DoubleQuote, 2)
      else Keep(rest, Normal, 1)
    case DollarQuote(tag) =>
      if tag <= rest then Keep(rest, Normal, |tag|) else Keep(rest, l, 1)
  }

  /** The statements a scan yields from mode l with `current` collected so far. */
  function Scan(l: Lex, current: string, rest: string): seq<string>
    requires ValidLex(l)
    decreases |rest|
  {
    if rest == "" then Emit(current)
    else
      var e := Next(l, rest);
      if e.ends then Emit(current) + Scan(Normal, "", rest[1..])
      else Scan(e.lex, current + e.text, rest[e.eaten..])
  }

  function SplitOf(sql: string): seq<string> { Scan(Normal, "", sql) }

  /** The mode a scan of the text ends in. */
  function FinalLex(l: Lex, rest: string): (r: Lex)
    requires ValidLex(l)
    ensures ValidLex(r)
    decreases |rest|
  {
    if rest == "" then l else FinalLex(Next(l, rest).lex, rest[Next(l, rest).eaten..])
  }

  predicate EndsNormal(sql: string) { FinalLex(Normal, sql) == Normal }

  // ---- the output ------------------------------------------------------------

  lemma EmitIsTrimmed(current: string)
    ensures forall s :: s in Emit(current) ==>
              s != "" && Trim(s) == s && s[0] !in {' ', '\t', '\n', '\r'} && s[|s| - 1] !in {' ', '\t', '\n', '\r'}
  {
    var lead, trail := TrimParts(IsBlank, current);
    TrimTwice(IsBlank, current);
  }

  /** Whatever the text, every statement of the output is non-empty and starts and ends with no blank. */
  lemma {:induction false} OutputIsTrimmed(l: Lex, current: string, rest: string)
    requires ValidLex(l)
    ensures forall s :: s in Scan(l, current, rest) ==>
              s != "" && Trim(s) == s && s[0] !in {' ', '\t', '\n', '\r'} && s[|s| - 1] !in {' ', '\t', '\n', '\r'}
    decreases |rest|
  {
    hide Trim, Next, Emit;
    EmitIsTrimmed(current);
    if rest != "" {
      var e := Next(l, rest);
      if e.ends {
        OutputIsTrimmed(Normal, "", rest[1..]);
      } else {
        OutputIsTrimmed(e.lex, current + e.text, rest[e.eaten..]);
      }
    }
  }

  // ---- the loop --------------------------------------------------------------

  datatype Mode = NormalMode | LineCommentMode | BlockCommentMode | SingleQuoteMode | DoubleQuoteMode | DollarQuoteMode

  function LexOf(mode: Mode, tag: string): Lex {
    match mode
    case NormalMode => Normal
    case LineCommentMode => LineComment
    case BlockCommentMode => BlockComment
    case SingleQuoteMode => SingleQuote
    case DoubleQuoteMode => DoubleQuote
    case DollarQuoteMode => DollarQuote(tag)
  }

  /** The search for the closing '$' of an opening tag at i. */
  method FindTagEnd(sql: string, i: nat) returns (tagEnd: nat)
    requires i < |sql|
    ensures tagEnd == i + WordEnd(sql[i..], 1)
  {
    tagEnd := i + 1;
    while tagEnd < |sql| && sql[tagEnd] != '$'
      invariant i + 1 <= tagEnd <= |sql|
      invariant WordEnd(sql[i..], 1) == WordEnd(sql[i..], tagEnd - i)
    {
      if !IsWord(sql[tagEnd]) {
        break;
      }
      tagEnd := tagEnd + 1;
    }
  }

  /** One unfolding of a scan. */
  lemma ScanStep(l: Lex, current: string, rest: string)
    requires ValidLex(l)
    ensures rest == "" ==> Scan(l, current, rest) == Emit(current)
    ensures rest != "" ==>
              var e := Next(l, rest);
              Scan(l, current, rest) == if e.ends then Emit(current) + Scan(Normal, "", rest[1..])
                                        else Scan(e.lex, current + e.text, rest[e.eaten..])
  {
  }

  /** The arm for plain text: comment openings, quotes, dollar tags, the terminator, anything else. */
  method NormalStep(sql: string, i: nat) returns (mode: Mode, tag: string, text: string, ends: bool, n: nat)
    requires i < |sql|
    ensures Effect(n, LexOf(mode, tag), text, ends) == Next(Normal, sql[i..])
  {
    hide WordEnd;
    ghost var rest := sql[i..];
    assert rest[..1] == [sql[i]];
    var c := sql[i];
    tag, ends := "", false;
    if c == '-' && i + 1 < |sql| && sql[i + 1] == '-' {
      return LineCommentMode, "", "", false, 2;
    }
    if c == '/' && i + 1 < |sql| && sql[i + 1] == '*' {
      return BlockCommentMode, "", "", false, 2;
    }
    if c == '\'' {
      return SingleQuoteMode, "", [c], false, 1;
    }
    if c == '"' {
      return DoubleQuoteMode, "", [c], false, 1;
    }
    if c == '$' {
      var tagEnd := FindTagEnd(sql, i);
      if tagEnd < |sql| && sql[tagEnd] == '$' {
        tag := sql[i..tagEnd + 1];
        assert tag == rest[..WordEnd(rest, 1) + 1];
        return DollarQuoteMode, tag, tag, false, tagEnd + 1 - i;
      }
    }
    if c == ';' {
      return NormalMode, "", "", true, 1;
    }
    return NormalMode, "", [c], false, 1;
  }

  /** The arms for the two quotes: a doubled quote stays inside, a single one closes. */
  method QuoteStep(sql: string, i: nat, mode: Mode) returns (after: Mode, text: string, n: nat)
    requires i < |sql| && (mode == SingleQuoteMode || mode == DoubleQuoteMode)
    ensures Effect(n, LexOf(after, ""), text, false) == Next(LexOf(mode, ""), sql[i..])
  {
    ghost var rest := sql[i..];
    var q := if mode == SingleQuoteMode then '\'' else '"';
    var c := sql[i];
    assert rest[..1] == [c];
    if c == q {
      if i + 1 < |sql| && sql[i + 1] == q {
        assert rest[..2] == [c, sql[i + 1]];
        return mode, [c, sql[i + 1]], 2;
      }
      return NormalMode, [c], 1;
    }
    return mode, [c], 1;
  }

  /** The arm for a dollar-quoted block: the whole closing tag at once, anything else one character. */
  method DollarStep(sql: string, i: nat, tag: string) returns (closed: bool, text: string, n: nat)
    requires i < |sql| && IsTag(tag)
    ensures Effect(n, if closed then Normal else DollarQuote(tag), text, false) == Next(DollarQuote(tag), sql[i..])
  {
    ghost var rest := sql[i..];
    assert rest[..1] == [sql[i]];
    if sql[i] == '$' && i + |tag| <= |sql| && sql[i..i + |tag|] == tag {
      assert rest[..|tag|] == tag;
      return true, tag, |tag|;
    }
    return false, [sql[i]], 1;
  }

  /** splitSqlStatements. */
  method SplitSqlStatements(sql: string) returns (statements: seq<string>)
    ensures statements == SplitOf(sql)
    ensures forall s :: s in statements ==>
              s != "" && s[0] !in {' ', '\t', '\n', '\r'} && s[|s| - 1] !in {' ', '\t', '\n', '\r'}
  {
    hide Scan, Trim, Next;
    var current, mode, dollarTag := "", NormalMode, "";
    var i := 0;
    statements := [];
    while i < |sql|
      invariant i <= |sql| && ValidLex(LexOf(mode, dollarTag))
      invariant statements + Scan(LexOf(mode, dollarTag), current, sql[i..]) == SplitOf(sql)
      decreases |sql| - i
    {
      ScanStep(LexOf(mode, dollarTag), current, sql[i..]);
      NextInComment(mode, sql[i..]);
      var text, n, ends := "", 1, false;
      match mode {
        case NormalMode =>
          mode, dollarTag, text, ends, n := NormalStep(sql, i);
        case LineCommentMode =>
          if sql[i] == '\n' {
            mode := NormalMode;
            text := ['\n'];
          }
        case BlockCommentMode =>
          if sql[i] == '*' && i + 1 < |sql| && sql[i + 1] == '/' {
            mode := NormalMode;
            n := 2;
          }
        case SingleQuoteMode =>
          mode, text, n := QuoteStep(sql, i, mode);
        case DoubleQuoteMode =>
          mode, text, n := QuoteStep(sql, i, mode);
        case DollarQuoteMode =>
          var closed: bool;
          closed, text, n := DollarStep(sql, i, dollarTag);
          if closed {
            mode, dollarTag := NormalMode, "";
          }
      }
      assert sql[i..][n..] == sql[i + n..];
      if ends {
        var trimmed := Trim(current);
        if |trimmed| > 0 {
          statements := statements + [trimmed];
        }
        current := "";
      } else {
        current := current + text;
      }
      i := i + n;
    }
    ScanStep(LexOf(mode, dollarTag), current, sql[i..]);
    var tail := Trim(current);
    if |tail| > 0 {
      statements := statements + [tail];
    }
    OutputIsTrimmed(Normal, "", sql);
  }

  /** The steps inside comments. */
  lemma NextInComment(mode: Mode, rest: string)
    requires rest != ""
    ensures mode == LineCommentMode ==>
              Next(LineComment, rest) == (if rest[0] == '\n' then Effect(1, Normal, ['\n'], false) else Effect(1, LineComment, "", false))
    ensures mode == BlockCommentMode ==>
              Next(BlockComment, rest) == (if rest[0] == '*' && |rest| > 1 && rest[1] == '/' then Effect(2, Normal, "", false)
                                           else Effect(1, BlockComment, "", false))
  {
    assert rest[..1] == [rest[0]];
  }
}
