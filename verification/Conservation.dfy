/**
 No line of a page is lost unaccounted for: the consumed stretches of lines follow one
 another and cover the page, and the lines that belong to no block are exactly described.
 */
module Conservation {
  import opened Text
  import opened Lists
  import opened Options
  import opened Outline

  /** A stretch of lines and the block, if any, made of it. */
  datatype Piece = Piece(lines: seq<string>, raw: Option<Raw>)

  function Pieces(lines: seq<string>): seq<Piece>
    decreases |lines|
  {
    if lines == [] then []
    else
      var st := NextBlock(lines);
      [Piece(lines[..|lines| - |After(lines, st.used)|], st.raw)] + Pieces(After(lines, st.used))
  }

  function AllLines(ps: seq<Piece>): seq<string> {
    if ps == [] then [] else ps[0].lines + AllLines(ps[1..])
  }

  function AllBlocks(ps: seq<Piece>): seq<Raw> {
    if ps == [] then [] else (if ps[0].raw.Some? then [ps[0].raw.value] else []) + AllBlocks(ps[1..])
  }

  /** The stretches, one after the other, are the page; their blocks are the page's blocks. */
  lemma {:induction false} PiecesTile(lines: seq<string>)
    ensures AllLines(Pieces(lines)) == lines
    ensures AllBlocks(Pieces(lines)) == Blocks(lines)
    ensures forall p :: p in Pieces(lines) ==> p.lines != []
    decreases |lines|
  {
    hide NextBlock;
    if lines == [] {
    } else {
      var st := NextBlock(lines);
      var rest := After(lines, st.used);
      PiecesTile(rest);
      var p := Piece(lines[..|lines| - |rest|], st.raw);
      assert |rest| < |lines|;
      assert lines == p.lines + rest;
      assert Pieces(lines) == [p] + Pieces(rest);
      assert ([p] + Pieces(rest))[1..] == Pieces(rest);
      hide Pieces, After;
    }
  }

  // ---- what each stretch of lines contributes -----------------------------------------

  /** A line that looks like the start of a block but is none: it stops a paragraph and opens nothing. */
  ghost predicate Misfit(l: string) {
    var t := TrimStart(l);
    var h := Leading(t, '#');
    var n := BulletMarker(t);
    // a heading that is indented or has a line terminator in it
    || (1 <= h <= 6 && h < |t| && IsSpace(t[h]) && (t != l || HasLineEnd(TrimStart(t[h..]))))
    // a fence whose info string has more than one word
    || ("```" <= t && HasSpace(TrimStart(Trim(l)[Leading(Trim(l), '`')..])))
    // three rule characters and then something else
    || (("---" <= t || "***" <= t || "___" <= t) && Leading(Trim(l), t[0]) < |Trim(l)|)
    // a list item with a line terminator in it
    || (n > 0 && n < |t| && IsSpace(t[n]) && HasLineEnd(TrimStart(t[n..])))
  }

  /** A stretch of lines with no block is one line, blank or a misfit; and the text of a block is
      that of its lines. */
  ghost predicate Accounts(p: Piece)
    requires p.lines != []
  {
    match p.raw
    case None => |p.lines| == 1 && (IsBlank(p.lines[0]) || Misfit(p.lines[0]))
    case Some(RawHeading(level, s)) =>
      && |p.lines| == 1 && HeadingOf(p.lines[0]) == Some((level, s)) && 1 <= level <= 6
      && exists gap: string, tail: string ::
        p.lines[0] == (seq(level, _ => '#') + gap) + (s + tail) && gap != ""
        && (forall k :: 0 <= k < |gap| ==> IsSpace(gap[k])) && (forall k :: 0 <= k < |tail| ==> IsSpace(tail[k]))
    case Some(RawRule) => |p.lines| == 1 && IsRule(p.lines[0])
    case Some(RawPara(s)) =>
      s == Join(Map(Trim, p.lines), " ") && forall k :: 0 <= k < |p.lines| ==> InPara(p.lines[k])
    case Some(RawQuote(s)) =>
      s == Join(Map(QuoteText, p.lines), " ") && forall k :: 0 <= k < |p.lines| ==> IsQuote(p.lines[k])
    case Some(RawList(ordered, items)) =>
      items == Map(BulletText, p.lines) && forall k :: 0 <= k < |p.lines| ==> IsBulletOf(ordered, p.lines[k])
    case Some(RawTable(head, rows)) =>
      |p.lines| == |rows| + 2 && head == Cells(p.lines[0]) && IsTableDelim(p.lines[1]) && rows == CellRows(p.lines[2..])
    case Some(RawCode(lang, v)) =>
      FenceOf(p.lines[0]) == Some(lang) && (lang.Some? ==> Lower(lang.value) != "mermaid") && Fenced(v, p.lines[1..])
    case Some(RawMermaid(v)) =>
      && FenceOf(p.lines[0]).Some? && FenceOf(p.lines[0]).value.Some?
      && Lower(FenceOf(p.lines[0]).value.value) == "mermaid"
      && Fenced(v, p.lines[1..])
  }

  /** The body of a fence, verbatim, and its closing line unless the page ends first. */
  ghost predicate Fenced(v: string, ls: seq<string>) {
    exists body: seq<string> ::
      v == Join(body, "\n")
      && (forall k :: 0 <= k < |body| ==> !ClosesFence(body[k]))
      && (ls == body || exists close :: ls == body + [close] && ClosesFence(close))
  }

  /** Trimming the end keeps everything up to the last other character. */
  lemma TrimKeeps(l: string, k: nat)
    requires k < |TrimStart(l)| && !IsSpace(TrimStart(l)[k])
    ensures k < |Trim(l)| && Trim(l) <= TrimStart(l)
  {
  }

  lemma ThreeKept(l: string)
    requires var t := TrimStart(l); |t| >= 3 && !IsSpace(t[0]) && !IsSpace(t[1]) && !IsSpace(t[2])
    ensures |Trim(l)| >= 3 && Trim(l) <= TrimStart(l)
    ensures Trim(l)[..3] == TrimStart(l)[..3]
  {
    TrimKeeps(l, 2);
  }

  /** A prefix of three equal characters, before and after trimming. */
  lemma ThreeEqual(l: string, c: char)
    requires !IsSpace(c)
    ensures [c, c, c] <= TrimStart(l) <==> |Trim(l)| >= 3 && Leading(Trim(l), c) >= 3
  {
    hide TrimEnd;
    var t, u := TrimStart(l), Trim(l);
    if [c, c, c] <= t {
      assert t[0] == [c, c, c][0] && t[1] == [c, c, c][1] && t[2] == [c, c, c][2];
      ThreeKept(l);
      assert forall k :: 0 <= k < 3 ==> u[k] == t[k];
    }
    if |u| >= 3 && Leading(u, c) >= 3 {
      assert u <= t;
      assert t[..3] == [u[0], u[1], u[2]];
    }
  }

  lemma TripleLiterals()
    ensures "```" == ['`', '`', '`'] && "---" == ['-', '-', '-'] && "***" == ['*', '*', '*'] && "___" == ['_', '_', '_']
  {
  }

  lemma FenceExactly(l: string)
    ensures FenceOf(l).Some? <==>
      "```" <= TrimStart(l) && !HasSpace(TrimStart(Trim(l)[Leading(Trim(l), '`')..]))
  {
    ThreeEqual(l, '`');
    TripleLiterals();
  }

  lemma RuleExactly(l: string)
    ensures IsRule(l) <==>
      var t := TrimStart(l);
      ("---" <= t || "***" <= t || "___" <= t) && Leading(Trim(l), t[0]) == |Trim(l)|
  {
    hide TrimStart;
    ThreeEqual(l, '-');
    ThreeEqual(l, '*');
    ThreeEqual(l, '_');
    TripleLiterals();
    var t, u := TrimStart(l), Trim(l);
    assert u != "" ==> u[0] == t[0];
    assert forall c, d :: [c, c, c] <= t && [d, d, d] <= t ==> [c, c, c][0] == t[0] == [d, d, d][0];
  }

  lemma SpacesFirst(r: string)
    ensures Spaces(r) == 0 <==> r == "" || !IsSpace(r[0])
    ensures r[Spaces(r)..] == TrimStart(r) && TrimStart(TrimStart(r)) == TrimStart(r)
  {
    hide IsSpace;
  }

  lemma DropTwice(l: string, h: nat, k: nat)
    requires h + k <= |l|
    ensures l[h..][k..] == l[h + k..]
  {
  }

  lemma HeadingExactly(l: string)
    ensures HeadingOf(l).Some? <==>
      var h := Leading(l, '#'); 1 <= h <= 6 && h < |l| && IsSpace(l[h]) && !HasLineEnd(TrimStart(l[h..]))
  {
    hide HasLineEnd, Trim, TrimStart, Leading, Spaces, IsSpace;
    var h := Leading(l, '#');
    RestExactly(l, h);
  }

  /** The white space after a marker, and what follows it. */
  lemma RestExactly(l: string, h: nat)
    requires h <= |l|
    ensures Spaces(l[h..]) > 0 <==> h < |l| && IsSpace(l[h])
    ensures l[h + Spaces(l[h..])..] == TrimStart(l[h..])
  {
    hide TrimStart, Spaces, IsSpace;
    SpacesFirst(l[h..]);
    DropTwice(l, h, Spaces(l[h..]));
    assert h < |l| ==> l[h..][0] == l[h];
  }

  lemma BulletExactly(l: string)
    ensures BulletOf(l).Some? <==>
      var t := TrimStart(l); var n := BulletMarker(t);
      n > 0 && n < |t| && IsSpace(t[n]) && !HasLineEnd(TrimStart(t[n..]))
  {
    hide BulletMarker, HasLineEnd, TrimStart, Spaces, IsSpace;
    var t := TrimStart(l);
    RestExactly(t, BulletMarker(t));
  }

  lemma BulletStart(t: string)
    requires BulletMarker(t) > 0
    ensures t[0] in {'-', '*', '+'} || IsDigit(t[0])
    ensures t[0] in {'-', '*', '+'} ==> BulletMarker(t) == 1
  {
  }

  /** What the first characters of a line say about the blocks it may open. */
  lemma FirstCharacters(t: string)
    ensures "```" <= t ==> t[0] == '`'
    ensures "---" <= t ==> t[0] == '-' && t[1] == '-'
    ensures "***" <= t ==> t[0] == '*' && t[1] == '*'
    ensures "___" <= t ==> t[0] == '_'
    ensures ">" <= t <==> t != "" && t[0] == '>'
    ensures 1 <= Leading(t, '#') ==> t[0] == '#'
    ensures BulletMarker(t) > 0 ==> t[0] in {'-', '*', '+'} || IsDigit(t[0])
    ensures BulletMarker(t) > 0 && t[0] in {'-', '*', '+'} ==> BulletMarker(t) == 1
  {
    TripleLiterals();
    assert "```" <= t ==> t[0] == ['`', '`', '`'][0];
    assert "---" <= t ==> t[0] == ['-', '-', '-'][0] && t[1] == ['-', '-', '-'][1];
    assert "***" <= t ==> t[0] == ['*', '*', '*'][0] && t[1] == ['*', '*', '*'][1];
    assert "___" <= t ==> t[0] == ['_', '_', '_'][0];
    if BulletMarker(t) > 0 {
      BulletStart(t);
    }
  }

  /** A line that stops a paragraph opens no block exactly when it is a misfit. */
  lemma MisfitExactly(l: string)
    ensures Misfit(l) <==>
      IsBreaker(l) && FenceOf(l).None? && HeadingOf(l).None? && !IsRule(l) && !IsQuote(l) && BulletOf(l).None?
  {
    hide FenceOf, HeadingOf, IsRule, BulletOf, HasLineEnd, HasSpace, BulletMarker, Trim, Leading, TrimStart;
    FenceExactly(l);
    HeadingExactly(l);
    RuleExactly(l);
    BulletExactly(l);
    var t := TrimStart(l);
    FirstCharacters(t);
    FirstCharacters(l);
    HeadingStart(l);
  }

  /** A heading's marks stand at the very start of the line. */
  lemma HeadingStart(l: string)
    ensures 1 <= Leading(l, '#') ==> TrimStart(l) == l
  {
  }

  lemma BlankIsNoBreaker(l: string)
    requires IsBlank(l)
    ensures !IsBreaker(l)
  {
    assert TrimStart(l) == "";
  }

  /** A line is consumed without a block exactly when it is blank, or a misfit that does not start
      a table. */
  lemma DroppedExactly(lines: seq<string>)
    requires lines != []
    ensures NextBlock(lines).raw.None? <==>
            IsBlank(lines[0]) || (Misfit(lines[0]) && !StartsTable(lines))
  {
    hide IsBlank, FenceOf, HeadingOf, IsRule, IsQuote, BulletOf, IsBreaker, Misfit, StartsTable;
    MisfitExactly(lines[0]);
    if IsBlank(lines[0]) {
      BlankIsNoBreaker(lines[0]);
    }
  }

  /** A page of one misfit has no block. */
  lemma MisfitAlone(l: string)
    requires Misfit(l)
    ensures Blocks([l]) == []
  {
    hide NextBlock, Misfit;
    DroppedExactly([l]);
    NoStart(l);
    assert After([l], NextBlock([l]).used) == [];
  }

  lemma NoStart(l: string)
    ensures !StartsTable([l])
  {
    hide IsTableDelim;
  }

  lemma IndentedHeadingDropped()
    ensures Blocks([" # x"]) == []
  {
    hide HasLineEnd, HasSpace, Trim, BulletMarker;
    var l := " # x";
    assert l[1..] == "# x" && TrimStart(l) == "# x";
    hide TrimStart;
    assert "# x"[1..] == " x" && Leading("# x", '#') == 1;
    hide Leading, Blocks;
    MisfitAlone(l);
  }

  lemma TwoWordInfo()
    ensures Leading("``` a b", '`') == 3 && TrimStart(" a b") == "a b" && HasSpace("a b")
  {
    var l := "``` a b";
    assert l[1..] == "`` a b" && "`` a b"[1..] == "` a b" && "` a b"[1..] == " a b";
    assert Leading(" a b", '`') == 0;
    assert " a b"[1..] == "a b" && "a b"[1] == ' ';
  }

  lemma FenceMisfit(l: string)
    requires "```" <= TrimStart(l) && HasSpace(TrimStart(Trim(l)[Leading(Trim(l), '`')..]))
    ensures Misfit(l)
  {
    hide TrimStart, Trim, HasLineEnd, BulletMarker, HasSpace, Leading;
  }

  lemma TwoWordTrimmed(l: string)
    requires l == "``` a b"
    ensures Trim(l) == l && TrimStart(l) == l
  {
    TrimmedAlready(l);
  }

  lemma TwoWordFenceDropped()
    ensures Blocks(["``` a b"]) == []
  {
    hide TrimStart, Trim, HasSpace, Leading, Misfit, Blocks;
    var l := "``` a b";
    TwoWordTrimmed(l);
    TwoWordInfo();
    assert l[3..] == " a b" && l[..3] == "```";
    FenceMisfit(l);
    MisfitAlone(l);
  }

  lemma LongRuleDropped()
    ensures Blocks(["--- x"]) == []
  {
    hide HasLineEnd, HasSpace, BulletMarker;
    var l := "--- x";
    TrimmedAlready(l);
    assert TrimStart(l) == l && l[..3] == "---" && l[3] == ' ' && l[0] == '-';
    hide Trim, TrimStart, Blocks;
    MisfitAlone(l);
  }

  lemma ItemMisfit(l: string)
    requires var t := TrimStart(l);
      var n := BulletMarker(t);
      n > 0 && n < |t| && IsSpace(t[n]) && HasLineEnd(TrimStart(t[n..]))
    ensures Misfit(l)
  {
    hide TrimStart, Trim, HasLineEnd, BulletMarker, HasSpace, Leading, IsSpace;
  }

  lemma BrokenText()
    ensures TrimStart(" a\rb") == "a\rb" && HasLineEnd("a\rb")
  {
    assert " a\rb"[1..] == "a\rb" && "a\rb"[1] == '\r';
  }

  lemma BrokenItem(l: string)
    requires l == "- a\rb"
    ensures TrimStart(l) == l && BulletMarker(l) == 1 && l[1..] == " a\rb" && IsSpace(l[1])
  {
    hide Digits;
    assert l[0] == '-' && l[1] == ' ';
  }

  lemma BrokenItemDropped()
    ensures Blocks(["- a\rb"]) == []
  {
    hide TrimStart, BulletMarker, HasLineEnd, IsSpace, Misfit, Blocks;
    var l := "- a\rb";
    BrokenText();
    BrokenItem(l);
    ItemMisfit(l);
    MisfitAlone(l);
  }

  /** Whatever opens a block is told by the line alone: no line opens two kinds. */
  lemma OpenersExclude(l: string)
    ensures FenceOf(l).Some? ==> HeadingOf(l).None? && !IsRule(l) && !IsQuote(l) && BulletOf(l).None?
    ensures HeadingOf(l).Some? ==> !IsRule(l) && !IsQuote(l) && BulletOf(l).None?
    ensures IsRule(l) ==> !IsQuote(l) && BulletOf(l).None?
    ensures IsQuote(l) ==> BulletOf(l).None?
    ensures IsBlank(l) ==> FenceOf(l).None? && HeadingOf(l).None? && !IsRule(l) && !IsQuote(l) && BulletOf(l).None?
  {
    hide FenceOf, HeadingOf, IsRule, BulletOf, HasLineEnd, HasSpace, BulletMarker, Trim, Leading, TrimStart;
    FenceExactly(l);
    HeadingExactly(l);
    RuleExactly(l);
    BulletExactly(l);
    FirstCharacters(TrimStart(l));
    FirstCharacters(l);
    HeadingStart(l);
    if IsBlank(l) {
      BlankIsNoBreaker(l);
      MisfitExactly(l);
      BlankStart(l);
    }
  }

  lemma BlankStart(l: string)
    requires IsBlank(l)
    ensures TrimStart(l) == "" && BulletMarker("") == 0 && Leading("", '#') == 0
  {
  }

  lemma BarIsNotBlank(l: string)
    requires '|' in l
    ensures !IsBlank(l) && !IsRule(l)
  {
    hide TrimEnd, Leading;
    var k :| 0 <= k < |l| && l[k] == '|';
    var n := Spaces(l);
    assert TrimStart(l)[k - n] == '|';
    TrimKeeps(l, k - n);
    assert Trim(l)[k - n] == '|';
  }

  /** Which kind of block starts at a line: a table gives way to a fence, a heading and a quote, and
      comes before a list and a paragraph; among the others no order matters. */
  lemma KindExactly(lines: seq<string>)
    requires lines != []
    ensures var l, raw, table := lines[0], NextBlock(lines).raw, StartsTable(lines);
      && (raw.Some? && (raw.value.RawCode? || raw.value.RawMermaid?) <==> FenceOf(l).Some?)
      && (raw.Some? && raw.value.RawHeading? <==> HeadingOf(l).Some?)
      && (raw.Some? && raw.value.RawRule? <==> IsRule(l))
      && (raw.Some? && raw.value.RawQuote? <==> IsQuote(l))
      && (raw.Some? && raw.value.RawTable? <==> table && FenceOf(l).None? && HeadingOf(l).None? && !IsQuote(l))
      && (raw.Some? && raw.value.RawList? <==> BulletOf(l).Some? && !table)
      && (raw.Some? && raw.value.RawPara? <==> InPara(l) && !table)
  {
    hide IsBlank, FenceOf, HeadingOf, IsRule, IsQuote, BulletOf, IsBreaker, IsTableDelim, Misfit, Join;
    var l := lines[0];
    OpenersExclude(l);
    MisfitExactly(l);
    BreakerOpens(l);
    if '|' in l {
      BarIsNotBlank(l);
    }
  }

  /** Whatever opens a block stops a paragraph. */
  lemma BreakerOpens(l: string)
    ensures FenceOf(l).Some? || HeadingOf(l).Some? || IsRule(l) || IsQuote(l) || BulletOf(l).Some? ==> IsBreaker(l)
  {
    hide FenceOf, HeadingOf, IsRule, BulletOf, HasLineEnd, HasSpace, BulletMarker, Trim, Leading, TrimStart;
    FenceExactly(l);
    HeadingExactly(l);
    RuleExactly(l);
    BulletExactly(l);
    FirstCharacters(TrimStart(l));
    HeadingStart(l);
  }

  // ---- every stretch is accounted for -------------------------------------------------

  /** A heading's line, cut into its marks, white space, text and trailing white space. */
  lemma HeadingParts(l: string) returns (marks: string, gap: string, tail: string)
    requires HeadingOf(l).Some?
    ensures var (n, s) := HeadingOf(l).value;
      && 1 <= n <= 6 && |marks| == n && (forall k :: 0 <= k < n ==> marks[k] == '#')
      && gap != "" && (forall k :: 0 <= k < |gap| ==> IsSpace(gap[k]))
      && (forall k :: 0 <= k < |tail| ==> IsSpace(tail[k]))
      && l == (marks + gap) + (s + tail)
  {
    hide HasLineEnd, TrimEnd, TrimStart, Leading, Spaces, IsSpace;
    var (n, s) := HeadingOf(l).value;
    var k := Spaces(l[n..]);
    var body := l[n + k..];
    DropTwice(l, n, k);
    SpacesFirst(l[n..]);
    marks, gap, tail := l[..n], l[n..][..k], body[|s|..];
    assert body == s + tail;
  }

  lemma HeadingAccounts(l: string)
    requires HeadingOf(l).Some?
    ensures Accounts(Piece([l], Some(RawHeading(HeadingOf(l).value.0, HeadingOf(l).value.1))))
  {
    hide HeadingOf;
    var marks, gap, tail := HeadingParts(l);
    assert marks == seq(HeadingOf(l).value.0, _ => '#');
  }

  /** The lines of a fence: its opener, its body and its closing line, if there is one. */
  lemma FenceTakes(lang: Option<string>, lines: seq<string>)
    requires lines != []
    ensures var n := Run(NotClosing(), lines[1..]);
      var body := lines[1..][..n];
      var own := lines[..|lines| - |After(lines, FenceStep(lang, lines[1..]).used)|];
      && own != [] && own[0] == lines[0]
      && (forall k :: 0 <= k < |body| ==> !ClosesFence(body[k]))
      && (own[1..] == body || exists close :: own[1..] == body + [close] && ClosesFence(close))
  {
    hide ClosesFence, Join, Lower;
    var rest := lines[1..];
    var n := Run(NotClosing(), rest);
    var body := rest[..n];
    assert forall k :: 0 <= k < n ==> NotClosing()(rest[k]) && body[k] == rest[k];
    if n < |rest| {
      assert !NotClosing()(rest[n]);
      assert lines[..n + 2][1..] == rest[..n + 1] == body + [rest[n]];
    } else {
      assert lines[1..] == body;
    }
  }

  lemma FenceAccounts(lang: Option<string>, lines: seq<string>)
    requires lines != [] && FenceOf(lines[0]) == Some(lang)
    ensures var st := FenceStep(lang, lines[1..]);
            Accounts(Piece(lines[..|lines| - |After(lines, st.used)|], st.raw))
  {
    hide FenceOf, ClosesFence, Join, Lower, Run, After;
    FenceTakes(lang, lines);
    var own := lines[..|lines| - |After(lines, FenceStep(lang, lines[1..]).used)|];
    var body := lines[1..][..Run(NotClosing(), lines[1..])];
    assert Fenced(Join(body, "\n"), own[1..]);
  }

  lemma RunsAccount(lines: seq<string>, n: nat)
    requires 0 < n <= |lines|
    ensures lines[..|lines| - |After(lines, n)|] == lines[..n]
  {
  }

  lemma ListAccounts(lines: seq<string>)
    requires lines != [] && BulletOf(lines[0]).Some?
    ensures var st := ListStep(BulletOf(lines[0]).value.0, lines);
            Accounts(Piece(lines[..|lines| - |After(lines, st.used)|], st.raw))
  {
    hide BulletOf;
    var ordered := BulletOf(lines[0]).value.0;
    assert BulletsOf(ordered)(lines[0]);
    var n := Run(BulletsOf(ordered), lines);
    assert forall k :: 0 <= k < n ==> BulletsOf(ordered)(lines[k]);
    RunsAccount(lines, n);
  }

  lemma TableAccounts(lines: seq<string>)
    requires lines != [] && StartsTable(lines)
    ensures var st := TableStep(lines);
            Accounts(Piece(lines[..|lines| - |After(lines, st.used)|], st.raw))
  {
    hide IsTableDelim, IsRow, Cells;
    var n := Run(IsRow, lines[2..]);
    RunsAccount(lines, n + 2);
    assert lines[..n + 2][2..] == lines[2..][..n];
  }

  lemma QuoteAccounts(lines: seq<string>)
    requires lines != [] && IsQuote(lines[0])
    ensures var st := QuoteStep(lines);
            Accounts(Piece(lines[..|lines| - |After(lines, st.used)|], st.raw))
  {
    hide IsQuote, QuoteText, Join;
    RunsAccount(lines, Run(IsQuote, lines));
  }

  lemma ParaAccounts(lines: seq<string>)
    requires lines != [] && (!InPara(lines[0]) ==> IsBlank(lines[0]) || Misfit(lines[0]))
    ensures var st := ParaStep(lines);
            Accounts(Piece(lines[..|lines| - |After(lines, st.used)|], st.raw))
  {
    hide IsBlank, IsBreaker, Misfit, Trim, Join;
    var n := Run(InPara, lines);
    RunsAccount(lines, if n == 0 then 1 else n);
  }

  /** What the parser takes off the top of a page accounts for those lines. */
  lemma FirstAccounts(lines: seq<string>)
    requires lines != []
    ensures var st := NextBlock(lines);
            Accounts(Piece(lines[..|lines| - |After(lines, st.used)|], st.raw))
  {
    hide IsBlank, FenceOf, HeadingOf, IsRule, IsQuote, BulletOf, Misfit, StartsTable, Accounts,
      FenceStep, ListStep, TableStep, QuoteStep, ParaStep, IsBreaker;
    var l := lines[0];
    MisfitExactly(l);
    RunsAccount(lines, 1);
    assert lines[..1] == [l];
    if IsBlank(l) {
      LineAccounts(l);
    } else if FenceOf(l).Some? {
      FenceAccounts(FenceOf(l).value, lines);
    } else if HeadingOf(l).Some? {
      HeadingAccounts(l);
    } else if IsRule(l) {
      LineAccounts(l);
    } else if IsQuote(l) {
      QuoteAccounts(lines);
    } else if StartsTable(lines) {
      TableAccounts(lines);
    } else if BulletOf(l).Some? {
      ListAccounts(lines);
    } else {
      ParaAccounts(lines);
    }
  }

  lemma LineAccounts(l: string)
    ensures IsBlank(l) ==> Accounts(Piece([l], None))
    ensures IsRule(l) ==> Accounts(Piece([l], Some(RawRule)))
  {
    hide IsBlank, IsRule, Misfit;
  }

  /** A line at which a block of this kind ends: it cannot be part of it. */
  ghost predicate Ends(raw: Option<Raw>, l: string) {
    match raw
    case Some(RawPara(_)) => !InPara(l)
    case Some(RawQuote(_)) => !IsQuote(l)
    case Some(RawList(ordered, _)) => !IsBulletOf(ordered, l)
    case Some(RawTable(_, _)) => !IsRow(l)
    case _ => true
  }

  lemma StepEnds(lines: seq<string>)
    requires lines != [] && NextBlock(lines).used < |lines|
    ensures Ends(NextBlock(lines).raw, lines[NextBlock(lines).used])
  {
    hide IsBlank, FenceOf, HeadingOf, IsRule, IsQuote, IsRow, BulletOf, IsBreaker, IsTableDelim, Join, Cells;
    var st := NextBlock(lines);
    if st.raw.Some? && st.raw.value.RawList? {
      var ordered := st.raw.value.ordered;
      assert !BulletsOf(ordered)(lines[st.used]);
    }
    if st.raw.Some? && st.raw.value.RawTable? {
      assert !IsRow(lines[2..][st.used - 2]);
    }
  }

  lemma FirstLine(lines: seq<string>)
    requires lines != []
    ensures Pieces(lines) != [] && Pieces(lines)[0].lines != [] && Pieces(lines)[0].lines[0] == lines[0]
  {
    hide NextBlock;
  }

  ghost predicate AllEnd(ps: seq<Piece>) {
    |ps| > 1 ==> ps[1].lines != [] && Ends(ps[0].raw, ps[1].lines[0]) && AllEnd(ps[1..])
  }

  /** No block stops short: the line after a paragraph, quote, list or table could not go on with it. */
  lemma {:induction false} PiecesStop(lines: seq<string>)
    ensures AllEnd(Pieces(lines))
    decreases |lines|
  {
    hide NextBlock, Ends;
    if lines == [] {
    } else {
      var st := NextBlock(lines);
      var rest := After(lines, st.used);
      PiecesStop(rest);
      var ps := Pieces(lines);
      assert ps[1..] == Pieces(rest) && ps[0].raw == st.raw;
      if rest != [] {
        StepEnds(lines);
        assert rest[0] == lines[st.used];
        FirstLine(rest);
        assert ps[1] == Pieces(rest)[0];
      }
    }
  }

  /** Every line of a page is in one stretch, and every stretch is accounted for. */
  lemma {:induction false} PageAccounts(lines: seq<string>)
    ensures forall p :: p in Pieces(lines) ==> p.lines != [] && Accounts(p)
    decreases |lines|
  {
    hide NextBlock, Accounts;
    if lines == [] {
    } else {
      FirstAccounts(lines);
      PiecesTile(lines);
      PageAccounts(After(lines, NextBlock(lines).used));
    }
  }
}