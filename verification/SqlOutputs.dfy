/** The splitter's output told from the characters of its input alone. */
module SqlOutputs {
  import opened Texts
  import opened SqlSplitter
  import opened SqlLaws
  import opened SqlGrammar
  import opened SqlRescan

  // ---- blanks ----------------------------------------------------------------

  /** The code points of ECMA-262's WhiteSpace and LineTerminator. */
  predicate BlankCode(n: int) {
    9 <= n <= 13 || n == 0x20 || n == 0xA0 || n == 0x1680 || 0x2000 <= n <= 0x200A || n == 0x2028 || n == 0x2029 ||
    n == 0x202F || n == 0x205F || n == 0x3000 || n == 0xFEFF
  }

  lemma BlankByCode(c: char)
    ensures IsBlank(c) <==> BlankCode(c as int)
  {
    var n := c as int;
    assert c == n as char;
  }

  predicate BlankCodes(s: string) { forall i :: 0 <= i < |s| ==> BlankCode(s[i] as int) }

  /** A text that holds more than blanks, without the blanks at its ends. */
  ghost predicate Core(k: string, s: string) {
    && s != "" && !BlankCode(s[0] as int) && !BlankCode(s[|s| - 1] as int)
    && exists lead, trail :: BlankCodes(lead) && BlankCodes(trail) && k == lead + s + trail
  }

  /** The cores of the texts that hold more than blanks, in order. */
  ghost predicate Cores(texts: seq<string>, ss: seq<string>) {
    if texts == [] then ss == []
    else if BlankCodes(texts[0]) then Cores(texts[1..], ss)
    else ss != [] && Core(texts[0], ss[0]) && Cores(texts[1..], ss[1..])
  }

  lemma BlanksByCode(s: string)
    ensures AllBlank(IsBlank, s) <==> BlankCodes(s)
  {
    hide IsBlank, BlankCode;
    forall i | 0 <= i < |s| ensures IsBlank(s[i]) <==> BlankCode(s[i] as int) {
      BlankByCode(s[i]);
    }
  }

  /** Only blanks trim away. */
  lemma EmitCore(k: string)
    ensures BlankCodes(k) ==> Emit(k) == []
    ensures !BlankCodes(k) ==> |Emit(k)| == 1 && Core(k, Emit(k)[0])
  {
    hide IsBlank, BlankCode, TrimBy;
    var lead, trail := TrimParts(IsBlank, k);
    var s := Trim(k);
    BlanksByCode(lead);
    BlanksByCode(trail);
    BlanksByCode(k);
    if s == "" {
      assert forall i :: 0 <= i < |k| ==> k[i] == if i < |lead| then lead[i] else trail[i - |lead|];
    } else {
      BlankByCode(s[0]);
      BlankByCode(s[|s| - 1]);
      assert k[|lead|] == s[0];
    }
  }

  function Rendered(segs: seq<seq<Piece>>): seq<string> {
    if segs == [] then [] else [RenderAll(segs[0])] + Rendered(segs[1..])
  }

  lemma {:induction false} EmittedCores(segs: seq<seq<Piece>>)
    ensures Cores(Rendered(segs), EmitAll(segs))
  {
    hide Emit, RenderAll, BlankCodes, Core;
    if segs != [] {
      EmittedCores(segs[1..]);
      var k := RenderAll(segs[0]);
      EmitCore(k);
      assert Rendered(segs)[1..] == Rendered(segs[1..]);
      if !BlankCodes(k) {
        assert EmitAll(segs)[1..] == EmitAll(segs[1..]);
      } else {
        assert EmitAll(segs) == EmitAll(segs[1..]);
      }
    }
  }

  /** The statements of a file are the texts between its terminators, comments stripped, that hold more than
      blanks, without the blanks at their ends: nothing else is lost and nothing is added. */
  lemma StatementsAreCores(ps: seq<Piece>)
    requires WellFormed(ps)
    ensures Cores(Rendered(Segments(ps)), SplitOf(RenderAll(ps)))
  {
    hide Emit, RenderAll, Segments, WellFormed, SplitOf, Cores, Statements;
    var segs := Segments(ps);
    SplitReadsGrammar(ps);
    StatementsOfSegments("", ps);
    assert "" + RenderAll(segs[0]) == RenderAll(segs[0]);
    assert EmitAll(segs) == Emit(RenderAll(segs[0])) + EmitAll(segs[1..]);
    EmittedCores(segs);
  }

  // ---- blanks around statements ----------------------------------------------

  /** Spaces, tabs and line ends, as migration files are laid out with. */
  predicate Layout(s: string) { forall i :: 0 <= i < |s| ==> s[i] in {' ', '\t', '\n', '\r'} }

  lemma LayoutIsBlank(s: string)
    requires Layout(s)
    ensures AllBlank(IsBlank, s) && BlankCodes(s)
  {
    forall i | 0 <= i < |s| ensures IsBlank(s[i]) {
      assert s[i] in {' ', '\t', '\n', '\r'};
    }
    BlanksByCode(s);
  }

  /** A file of layout alone has no statement. */
  lemma LayoutHasNoStatement(sql: string)
    requires Layout(sql)
    ensures SplitOf(sql) == []
  {
    hide Scan, Emit, Uncut, BlankCodes, Layout;
    LayoutIsBlank(sql);
    BlanksAreUncut(Normal, sql);
    UncutKeepsText(Normal, "", sql);
    EmitCore(sql);
    assert "" + sql == sql;
  }

  /** The text starts and ends with a printable character. */
  predicate VisibleEnds(s: string) { s != "" && '!' <= s[0] <= '~' && '!' <= s[|s| - 1] <= '~' }

  /** A statement is cut out of the layout around it and no character of it is lost. */
  lemma LaidOutStatement(lead: string, s: string, trail: string)
    requires Layout(lead) && Layout(trail) && VisibleEnds(s) && Uncut(Normal, s)
    ensures SplitOf(lead + s + trail) == [s]
  {
    hide Scan, Uncut, Layout, BlankCodes, BlankCode, TrimBy, IsBlank;
    var k := lead + s + trail;
    LayoutIsBlank(lead);
    LayoutIsBlank(trail);
    UncutTrail(Normal, s, trail);
    UncutLead(lead, s + trail);
    assert lead + (s + trail) == k && "" + k == k;
    UncutKeepsText(Normal, "", k);
    VisibleIsTight(s);
    TrimStrips(IsBlank, lead, s, trail);
  }

  lemma VisibleIsTight(s: string)
    requires VisibleEnds(s)
    ensures Tight(IsBlank, s) && !BlankCode(s[0] as int)
  {
  }

  /** Statements written one a line, each behind its terminator. */
  function OnePerLine(ss: seq<string>): string {
    if ss == [] then "" else ss[0] + ";\n" + OnePerLine(ss[1..])
  }

  lemma {:induction false} OnePerLineReads(lead: string, ss: seq<string>)
    requires Layout(lead)
    requires forall i :: 0 <= i < |ss| ==> VisibleEnds(ss[i]) && Uncut(Normal, ss[i]) && EndsNormal(ss[i])
    ensures SplitOf(lead + OnePerLine(ss)) == ss
    decreases |ss|
  {
    hide Scan, Uncut, VisibleEnds, FinalLex;
    if ss == [] {
      assert lead + "" == lead;
      LayoutHasNoStatement(lead);
    } else {
      var s, rest := ss[0], OnePerLine(ss[1..]);
      var a := lead + s;
      assert lead + OnePerLine(ss) == a + [';'] + ("\n" + rest);
      LeadEndsNormal(lead, s);
      SplitDistributes(a, "\n" + rest);
      LaidOutStatement(lead, s, "");
      assert lead + s + "" == a;
      OnePerLineReads("\n", ss[1..]);
      assert ss == [s] + ss[1..];
    }
  }

  lemma {:induction false} LeadEndsNormal(lead: string, s: string)
    requires Layout(lead) && EndsNormal(s)
    ensures EndsNormal(lead + s)
  {
    hide FinalLex, OpensTag;
    if lead == "" {
      assert lead + s == s;
    } else {
      assert lead[0] in {' ', '\t', '\n', '\r'};
      NoTagWithoutDollar(lead + s);
      FinalStep(Normal, lead + s);
      assert (lead + s)[1..] == lead[1..] + s;
      LeadEndsNormal(lead[1..], s);
    }
  }

  /** A migration file with one statement a line reads as those statements. */
  lemma LinesAreStatements(ss: seq<string>)
    requires forall i :: 0 <= i < |ss| ==> VisibleEnds(ss[i]) && Uncut(Normal, ss[i]) && EndsNormal(ss[i])
    ensures SplitOf(OnePerLine(ss)) == ss
  {
    OnePerLineReads("", ss);
    assert "" + OnePerLine(ss) == OnePerLine(ss);
  }

  // ---- single characters -----------------------------------------------------

  /** A file of one character is a statement unless the character is a terminator or a blank, told by its
      code point. */
  lemma OneCharacter(c: char)
    ensures var n := c as int;
      SplitOf([c]) == [] <==>
      c == ';' || 9 <= n <= 13 || n == 0x20 || n == 0xA0 || n == 0x1680 || 0x2000 <= n <= 0x200A || n == 0x2028 ||
      n == 0x2029 || n == 0x202F || n == 0x205F || n == 0x3000 || n == 0xFEFF
    ensures SplitOf([c]) != [] ==> SplitOf([c]) == [[c]]
  {
    hide Scan, Emit, Core;
    ScanStep(Normal, "", [c]);
    ScanStep(Normal, "", "");
    EmitCore("");
    assert [c][1..] == "";
    if c != ';' {
      OneCharacterKept(c);
      assert [c][0] == c;
      assert BlankCodes([c]) <==> BlankCode(c as int);
      EmitCore([c]);
      if BlankCodes([c]) {
        assert SplitOf([c]) == [];
      } else {
        CoreOfOne(c, Emit([c]));
        assert SplitOf([c]) == [[c]];
      }
    }
  }

  lemma OneCharacterKept(c: char)
    requires c != ';'
    ensures Scan(Normal, "", [c]) == Emit([c])
  {
    hide Scan, Emit;
    ScanStep(Normal, "", [c]);
    var e := Next(Normal, [c]);
    assert [c][..1] == [c] && [c][1..] == "" && "" + [c] == [c];
    ScanStep(e.lex, [c], "");
  }

  lemma CoreOfOne(c: char, ss: seq<string>)
    requires |ss| == 1 && Core([c], ss[0])
    ensures ss == [[c]]
  {
    hide BlankCodes, BlankCode;
    var s := ss[0];
    var lead, trail :| BlankCodes(lead) && BlankCodes(trail) && [c] == lead + s + trail;
    assert |lead| + |s| + |trail| == 1;
    assert lead == "" && trail == "" && lead + s + trail == s;
  }

  // ---- dollar quotes ---------------------------------------------------------

  /** Letters, digits and underscores. */
  predicate WordText(w: string) {
    forall i :: 0 <= i < |w| ==>
      0x41 <= w[i] as int <= 0x5A || 0x61 <= w[i] as int <= 0x7A || 0x30 <= w[i] as int <= 0x39 || w[i] as int == 0x5F
  }

  lemma WordByCode(w: string)
    ensures WordText(w) <==> forall i :: 0 <= i < |w| ==> IsWord(w[i])
  {
    forall i | 0 <= i < |w|
      ensures IsWord(w[i]) <==> 0x41 <= w[i] as int <= 0x5A || 0x61 <= w[i] as int <= 0x7A || 0x30 <= w[i] as int <= 0x39 || w[i] == '_'
    {
      assert w[i] == (w[i] as int) as char;
    }
  }

  /** Between two equal tags of word characters nothing is read, the empty tag included. */
  lemma DollarQuoteIsWhole(w: string, body: string)
    requires WordText(w) && FirstAtEnd("$" + w + "$", body)
    ensures SplitOf("$" + w + "$" + body + "$" + w + "$") == ["$" + w + "$" + body + "$" + w + "$"]
  {
    hide IsWord, FirstAtEnd, WordText, SplitOf, TrimBy;
    var tag := "$" + w + "$";
    var whole := tag + body + tag;
    WordByCode(w);
    assert IsTag(tag) by { assert forall i :: 1 <= i < |tag| - 1 ==> tag[i] == w[i - 1]; }
    var ps := [Dollar(tag, body)];
    assert ps[1..] == [] && whole + "" == whole && "" + whole == whole;
    assert WellFormed(ps) && RenderAll(ps) == whole;
    SplitReadsGrammar(ps);
    assert Statements("", ps) == Statements("" + whole, []) == Emit(whole);
    VisibleIsTight(whole);
    TrimOfTight(IsBlank, whole);
    assert whole == "$" + w + "$" + body + "$" + w + "$";
  }

  lemma {:induction false} PlainIsUncut(s: string)
    requires forall i :: 0 <= i < |s| ==> s[i] !in {'\'', '"', '$', '-', '/', ';'}
    ensures Uncut(Normal, s) && EndsNormal(s)
  {
    hide Uncut, FinalLex, OpensTag;
    UncutStep(Normal, s);
    FinalStep(Normal, s);
    if s != "" {
      NoTagWithoutDollar(s);
      PlainIsUncut(s[1..]);
    }
  }

  /** A character that is none of them ends the search for the tag: nothing is quoted, and the next
      terminator ends the statement. */
  lemma NoTagNoQuote(w: string, c: char, rest: string)
    requires WordText(w) && !WordText([c]) && c !in {'\'', '"', '$', '-', '/', ';'}
    ensures SplitOf("$" + w + [c] + "!;" + rest) == ["$" + w + [c] + "!"] + SplitOf(rest)
  {
    hide IsWord, Uncut, FinalLex, WordText, SplitOf;
    var tail := w + [c] + "!";
    var s := "$" + tail;
    WordByCode(w);
    WordByCode([c]);
    assert [c][0] == c && !IsWord(c);
    assert s == "$" + w + [c] + "!";
    WordEndOfRun(s, |w| + 1, 1);
    NoneQuotes(w);
    PlainIsUncut(tail);
    UncutStep(Normal, s);
    FinalStep(Normal, s);
    assert s[1..] == tail;
    LaidOutStatement("", s, "");
    assert "" + s + "" == s;
    SplitDistributes(s, rest);
    assert s + [';'] + rest == "$" + w + [c] + "!;" + rest;
  }

  lemma NoneQuotes(w: string)
    requires forall i :: 0 <= i < |w| ==> IsWord(w[i])
    ensures forall i :: 0 <= i < |w| ==> w[i] !in {'\'', '"', '$', '-', '/', ';'}
  {
  }

  lemma {:induction false} WordEndOfRun(s: string, k: nat, i: nat)
    requires i <= k < |s| && !IsWord(s[k]) && forall j :: i <= j < k ==> IsWord(s[j])
    ensures WordEnd(s, i) == k
    decreases k - i
  {
    if i < k { WordEndOfRun(s, k, i + 1); }
  }
}
