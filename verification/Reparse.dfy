/**
 What a printed page parses to, whether its blocks are well-formed or not; and so which pages
 come back unchanged from printing and parsing again.
 */
module Reparse {
  import opened Text
  import opened Lists
  import opened Options
  import opened Outline
  import opened Conservation
  import opened Page
  import opened Printer
  import opened Reprint

  // ---- the lines of a printed text ------------------------------------------------------

  /** A line as it comes back from a text: a carriage return at its end joins the line break. */
  function Strip(l: string): string {
    if EndsInReturn(l) then l[..|l| - 1] else l
  }

  lemma StripUnbroken(l: string)
    requires '\n' !in l
    ensures '\n' !in Strip(l)
  {
  }

  lemma {:induction false} UnixReturn(l: string, rest: string)
    requires '\n' !in l
    ensures Unix(l + "\n" + rest) == Strip(l) + "\n" + Unix(rest)
  {
    hide Unix;
    if l == "" {
      assert l + "\n" + rest == ['\n'] + rest;
      UnixStep('\n', rest);
    } else if l == "\r" {
      ReturnBreak(rest);
      assert l + "\n" + rest == "\r\n" + rest;
    } else {
      var m := l[1..];
      assert l == [l[0]] + m;
      assert m == "" ==> l[0] != '\r';
      assert m != "" ==> m[0] == l[1] && m[|m| - 1] == l[|l| - 1];
      UnixReturn(m, rest);
      assert l + "\n" + rest == [l[0]] + (m + "\n" + rest);
      UnixStep(l[0], m + "\n" + rest);
      assert Strip(l) == [l[0]] + Strip(m);
      assert [l[0]] + (Strip(m) + "\n" + Unix(rest)) == Strip(l) + "\n" + Unix(rest);
    }
  }

  lemma ReturnBreak(rest: string)
    ensures Unix("\r\n" + rest) == "\n" + Unix(rest)
  {
    assert ("\r\n" + rest)[2..] == rest;
  }

  lemma {:induction false} UnixStrips(ls: seq<string>)
    requires ls != [] && Unbroken(ls) && ls[|ls| - 1] == ""
    ensures Unix(Join(ls, "\n")) == Join(Map(Strip, ls), "\n")
  {
    hide Unix, Strip, Map;
    var stripped := Map(Strip, ls);
    if |ls| == 1 {
      UnixEmpty();
      StripEmpty();
    } else {
      var rest := ls[1..];
      UnixStrips(rest);
      UnixReturn(ls[0], Join(rest, "\n"));
      assert stripped[1..] == Map(Strip, rest);
    }
  }

  lemma StripEmpty()
    ensures Strip("") == ""
  {
  }

  /** The lines of a text that ends in a line break. */
  lemma StrippedLines(ls: seq<string>)
    requires ls != [] && Unbroken(ls) && ls[|ls| - 1] == ""
    ensures Lines(Join(ls, "\n")) == Map(Strip, ls)
  {
    hide Unix, Strip, Map, Split, Join;
    UnixStrips(ls);
    var stripped := Map(Strip, ls);
    forall k | 0 <= k < |ls|
      ensures '\n' !in stripped[k]
    {
      StripUnbroken(ls[k]);
    }
    SplitJoin(stripped, '\n');
  }

  // ---- what a parsed block can be -------------------------------------------------------

  ghost predicate ItemTexts(items: seq<string>) {
    forall k :: 0 <= k < |items| ==> !HasLineEnd(items[k]) && (items[k] == "" || !IsSpace(items[k][0]))
  }

  ghost predicate Unclosed(ls: seq<string>) {
    forall k :: 0 <= k < |ls| ==> !ClosesFence(ls[k])
  }

  ghost predicate Word(info: string) {
    info != "" && !HasSpace(info)
  }

  ghost predicate MarkerFirst(s: string) {
    exists t: string, r: string :: s == t + " " + r && t != "" && BareMarker(t)
  }

  /** A block as the parser may return it, well-formed or not. */
  ghost predicate Parsed(raw: Raw) {
    match raw
    case RawPara(s) => s != "" && Trimmed(s) && '\n' !in s && (IsBreaker(s) ==> MarkerFirst(s))
    case RawQuote(s) => '\n' !in s
    case RawList(ordered, items) => items != [] && ItemTexts(items)
    case RawCode(lang, v) =>
      Unclosed(Split(v, '\n')) && (lang.Some? ==> Word(lang.value) && Lower(lang.value) != "mermaid")
    case RawMermaid(v) => Unclosed(Split(v, '\n'))
    case _ => WellFormed(raw)
  }

  lemma ParaParsed(ls: seq<string>)
    requires ls != [] && Unbroken(ls) && forall k :: 0 <= k < |ls| ==> InPara(ls[k])
    ensures Parsed(RawPara(Join(Map(Trim, ls), " ")))
  {
    hide Trim, IsBreaker, InPara, BareMarker, Map, Join, IsSpace, Unbroken;
    ParaText(ls);
    var parts := Map(Trim, ls);
    if |ls| > 1 {
      JoinedBreaks(parts[0], Join(parts[1..], " "));
    }
  }

  lemma QuoteParsed(ls: seq<string>)
    requires Unbroken(ls)
    ensures Parsed(RawQuote(Join(Map(QuoteText, ls), " ")))
  {
    hide QuoteText, Map, Join;
    QuotesUnbroken(ls);
    JoinUnbroken(Map(QuoteText, ls));
  }

  lemma ListParsed(ordered: bool, ls: seq<string>)
    requires ls != [] && forall k :: 0 <= k < |ls| ==> IsBulletOf(ordered, ls[k])
    ensures Parsed(RawList(ordered, Map(BulletText, ls)))
  {
    hide IsBulletOf, BulletText, HasLineEnd, IsSpace, Map;
    forall k | 0 <= k < |ls|
      ensures !HasLineEnd(BulletText(ls[k])) && (BulletText(ls[k]) == "" || !IsSpace(BulletText(ls[k])[0]))
    {
      ItemText(ordered, ls[k]);
    }
  }

  lemma InfoIsWord(l: string)
    requires FenceOf(l).Some? && FenceOf(l).value.Some?
    ensures Word(FenceOf(l).value.value)
  {
    hide Trim, Leading, TrimStart, HasSpace;
  }

  lemma PieceParsed(p: Piece)
    requires p.lines != [] && p.raw.Some? && Unbroken(p.lines) && Accounts(p)
    ensures Parsed(p.raw.value)
  {
    hide HeadingOf, IsRule, Trim, Map, Join, InPara, QuoteText, IsQuote, BulletText, IsBulletOf, IsTableDelim, Cells,
      CellRows, FenceOf, Fenced, StartsTable, HasLineEnd, CellText, SpoiledBody, IsBreaker, IsSpace, Lower, Unclosed,
      Word, MarkerFirst, ItemTexts, Split;
    var ls := p.lines;
    match p.raw.value {
      case RawHeading(_, _) => HeadingWellFormed(ls[0]);
      case RawPara(_) => ParaParsed(ls);
      case RawQuote(_) => QuoteParsed(ls);
      case RawList(ordered, _) => ListParsed(ordered, ls);
      case RawTable(_, _) => TableWellFormed(ls);
      case RawCode(lang, v) =>
        BodyUnclosed(v, ls[1..]);
        if lang.Some? {
          InfoIsWord(ls[0]);
        }
      case RawMermaid(v) => BodyUnclosed(v, ls[1..]);
      case RawRule =>
    }
  }

  lemma BodyUnclosed(v: string, ls: seq<string>)
    requires Unbroken(ls) && Fenced(v, ls)
    ensures Unclosed(Split(v, '\n'))
  {
    hide ClosesFence, Fenced, Split;
    BodySplit(v, ls);
  }

  lemma PageParsed(lines: seq<string>)
    requires Unbroken(lines)
    ensures forall b :: b in Blocks(lines) ==> Parsed(b)
  {
    hide NextBlock, Blocks, Pieces, AllBlocks, Parsed, Accounts, Unbroken;
    PiecesTile(lines);
    PageAccounts(lines);
    PiecesUnbroken(lines);
    var ps := Pieces(lines);
    forall b | b in Blocks(lines)
      ensures Parsed(b)
    {
      BlocksOfPieces(ps, b);
      var p :| p in ps && p.raw == Some(b);
      PieceParsed(p);
    }
  }

  // ---- one printed block, parsed again --------------------------------------------------

  /** The lines of a printed block as they come back from the text. */
  function Printed(raw: Raw): seq<string> {
    Map(Strip, Print(raw))
  }

  lemma SolidStays(ls: seq<string>)
    requires forall k :: 0 <= k < |ls| ==> Solid(ls[k])
    ensures Map(Strip, ls) == ls && Unbroken(ls)
  {
    hide Map;
    assert forall k :: 0 <= k < |ls| ==> Solid(ls[k]) && Strip(ls[k]) == ls[k];
  }

  lemma TopBlock(lines: seq<string>, n: nat)
    requires lines != [] && NextBlock(lines).used == n <= |lines|
    ensures var raw := NextBlock(lines).raw;
      Blocks(lines) == (if raw.Some? then [raw.value] else []) + Blocks(lines[n..])
  {
    hide NextBlock;
  }

  /** A well-formed block comes back. */
  lemma WellFormedAgain(raw: Raw, rest: seq<string>)
    requires WellFormed(raw) && rest != [] && rest[0] == ""
    ensures Blocks(Printed(raw) + rest) == [raw] + Blocks(rest)
  {
    hide WellFormed, Print, NextBlock, Blocks, Map, Solid;
    PrintSolid(raw);
    SolidStays(Print(raw));
    PrintSome(raw);
    ReadBlock(raw, rest);
    var lines := Print(raw) + rest;
    TopBlock(lines, |Print(raw)|);
    assert lines[|Print(raw)|..] == rest;
  }

  /** A paragraph that starts with a marker opens neither a fence nor a rule nor a quote. */
  lemma MarkerOpens(s: string)
    requires MarkerFirst(s) && Trimmed(s)
    ensures s != "" && FenceOf(s).None? && !IsRule(s) && !IsQuote(s)
  {
    hide FenceOf, IsRule, Leading, BulletMarker, IsSpace, Spaces, TrimEnd, HasSpace;
    var t, r :| s == t + " " + r && t != "" && BareMarker(t);
    assert s[0] == t[0] && s[|t|] == ' ';
    StartsAt(s);
    TrimmedAlready(s);
    FirstCharacters(t);
    FirstCharacters(s);
    FenceExactly(s);
    RuleExactly(s);
    LeadingWithin(s, s[0], |t|);
    DigitIsNoSign(t[0]);
  }

  lemma DigitIsNoSign(c: char)
    ensures IsDigit(c) ==> c !in {'-', '*', '_', '`', '>', ' '}
  {
  }

  lemma LeadingWithin(s: string, c: char, k: nat)
    requires k < |s| && s[k] != c
    ensures Leading(s, c) <= k
  {
  }

  lemma OneTaken(lines: seq<string>)
    requires |lines| > 1 && lines[1] == ""
    requires FenceOf(lines[0]).None? && !IsQuote(lines[0]) && !InPara(lines[0])
    ensures NextBlock(lines).used == 1
    ensures NextBlock(lines).raw.Some? ==> !NextBlock(lines).raw.value.RawPara?
  {
    hide IsBlank, FenceOf, HeadingOf, IsRule, IsQuote, BulletOf, IsTableDelim, Join, InPara, Map;
    BlankLine();
    var l := lines[0];
    assert lines == [l] + lines[1..];
    if BulletOf(l).Some? {
      var ordered := BulletOf(l).value.0;
      assert BulletsOf(ordered)(l) && !BulletsOf(ordered)("");
      RunOf(BulletsOf(ordered), [l], lines[1..]);
    }
  }

  /** A paragraph whose text breaks comes back as a heading, a list or nothing. */
  lemma ParaAgain(s: string, rest: seq<string>) returns (x: seq<Raw>)
    requires Parsed(RawPara(s)) && IsBreaker(s) && rest != [] && rest[0] == ""
    ensures Blocks(Printed(RawPara(s)) + rest) == x + Blocks(rest)
    ensures forall b :: b in x ==> !b.RawPara?
  {
    hide IsBreaker, MarkerFirst, FenceOf, IsRule, IsQuote, IsBlank, IsSpace, NextBlock, Blocks;
    MarkerOpens(s);
    TrimmedSolid(s);
    SolidStays([s]);
    var lines := [s] + rest;
    OneTaken(lines);
    TopBlock(lines, 1);
    assert lines[1..] == rest;
    var raw := NextBlock(lines).raw;
    x := if raw.Some? then [raw.value] else [];
  }

  lemma QuoteAgain(s: string, rest: seq<string>)
    requires '\n' !in s && rest != [] && rest[0] == ""
    ensures Blocks(Printed(RawQuote(s)) + rest) == [RawQuote(Strip(s))] + Blocks(rest)
  {
    hide NextBlock, Blocks, Map;
    var l := "> " + s;
    assert s != "" ==> l[|l| - 1] == s[|s| - 1];
    assert Strip(l) == "> " + Strip(s);
    assert Printed(RawQuote(s)) == Print(RawQuote(Strip(s)));
    ReadQuote(Strip(s), rest);
    var lines := ["> " + Strip(s)] + rest;
    TopBlock(lines, 1);
    assert lines[1..] == rest;
  }

  lemma ItemsSolid(ordered: bool, items: seq<string>)
    requires ItemTexts(items)
    ensures forall k :: 0 <= k < |items| ==> Solid(ItemLine(ordered)(items[k]))
  {
    hide HasLineEnd, Solid, IsSpace;
    forall k | 0 <= k < |items|
      ensures Solid(ItemLine(ordered)(items[k]))
    {
      NoLineEndSolid(items[k]);
      MarkEnds(ordered);
      SolidAfter(if ordered then "1. " else "- ", items[k]);
    }
  }

  lemma MarkEnds(ordered: bool)
    ensures var mark := if ordered then "1. " else "- "; '\n' !in mark && mark != "" && mark[|mark| - 1] != '\r'
  {
  }

  lemma ItemOpens(s: string)
    requires !HasLineEnd(s) && (s == "" || !IsSpace(s[0]))
    ensures var l := ItemLine(false)(s);
      && !IsBlank(l) && FenceOf(l).None? && HeadingOf(l).None? && !IsRule(l) && !IsQuote(l)
      && BulletOf(l) == Some((false, s))
  {
    hide HasLineEnd, FenceOf, HeadingOf, IsRule, BulletOf, IsBlank;
    var l := ItemLine(false)(s);
    ItemRead(false, s);
    NotSpace();
    FirstStays(l);
    NotAFence(l);
    NotARule(l);
    HeadingExactly(l);
  }

  function Items(items: seq<string>): (own: seq<string>)
    ensures |own| == |items|
  {
    Map(ItemLine(false), items)
  }

  lemma ItemsCut(items: seq<string>, n: nat, rest: seq<string>)
    requires n <= |items|
    ensures Items(items)[n..] == Items(items[n..])
    ensures (Items(items) + rest)[n..] == Items(items[n..]) + rest
    ensures items != [] ==> Items(items)[0] == (Items(items) + rest)[0] == ItemLine(false)(items[0])
  {
    hide ItemLine, Map;
  }

  ghost predicate NoPara(bs: seq<Raw>) {
    forall b :: b in bs ==> !b.RawPara?
  }

  lemma TableThenItems(items: seq<string>, rest: seq<string>) returns (n: nat, table: Raw)
    requires items != [] && ItemTexts(items) && rest != [] && rest[0] == "" && StartsTable(Items(items) + rest)
    ensures 0 < n <= |items| && ItemTexts(items[n..]) && table.RawTable?
    ensures Blocks(Items(items) + rest) == [table] + Blocks(Items(items[n..]) + rest)
  {
    hide ItemLine, IsSpace, HasLineEnd, Blocks, NextBlock, StartsTable, Items;
    var own := Items(items);
    ItemOpens(items[0]);
    ItemsCut(items, 0, rest);
    n := TableTakes(own, rest);
    ItemsCut(items, n, rest);
    TextsCut(items, n);
    TopBlock(own + rest, n);
    table := NextBlock(own + rest).raw.value;
  }

  /** A run of items over a blank line is read as lists and tables, a table first if one starts it. */
  lemma {:induction false} ItemsAgain(items: seq<string>, rest: seq<string>) returns (x: seq<Raw>)
    requires ItemTexts(items) && rest != [] && rest[0] == ""
    ensures Blocks(Items(items) + rest) == x + Blocks(rest)
    ensures NoPara(x)
    ensures items != [] && StartsTable(Items(items)) ==> x != [] && x[0].RawTable?
    decreases |items|
  {
    hide ItemTexts, Blocks, NextBlock, StartsTable, Items;
    var own := Items(items);
    if items == [] {
      assert own + rest == rest;
      x := [];
    } else {
      SameStart(own, rest);
      if StartsTable(own + rest) {
        var n, table := TableThenItems(items, rest);
        var y := ItemsAgain(items[n..], rest);
        x := [table] + y;
      } else {
        ItemsListed(items, rest);
        TopBlock(own + rest, |items|);
        assert (own + rest)[|items|..] == rest;
        x := [RawList(false, items)];
      }
    }
  }

  lemma TextsCut(items: seq<string>, n: nat)
    requires n <= |items| && ItemTexts(items)
    ensures ItemTexts(items[n..])
  {
    hide HasLineEnd, IsSpace;
  }

  lemma SameStart(own: seq<string>, rest: seq<string>)
    requires own != [] && rest != [] && rest[0] == ""
    ensures StartsTable(own + rest) <==> StartsTable(own)
  {
    hide IsTableDelim;
    BlankLine();
    assert |own| > 1 ==> (own + rest)[1] == own[1];
    assert |own| == 1 ==> (own + rest)[1] == rest[0];
  }

  lemma TableTakes(own: seq<string>, rest: seq<string>) returns (n: nat)
    requires own != [] && rest != [] && rest[0] == "" && StartsTable(own + rest)
    requires var l := own[0]; !IsBlank(l) && FenceOf(l).None? && HeadingOf(l).None? && !IsRule(l) && !IsQuote(l)
    ensures 0 < n <= |own| && NextBlock(own + rest).used == n
    ensures NextBlock(own + rest).raw.Some? && NextBlock(own + rest).raw.value.RawTable?
  {
    hide IsBlank, FenceOf, HeadingOf, IsRule, IsQuote, IsTableDelim, IsRow, Cells;
    BlankLine();
    SameStart(own, rest);
    var lines := own + rest;
    var k := Run(IsRow, lines[2..]);
    assert lines[2..][|own| - 2] == rest[0];
    n := k + 2;
  }

  lemma ItemsListed(items: seq<string>, rest: seq<string>)
    requires items != [] && ItemTexts(items) && rest != [] && rest[0] == ""
    requires !StartsTable(Items(items) + rest)
    ensures NextBlock(Items(items) + rest) == Step(Some(RawList(false, items)), |items|)
  {
    hide IsSpace, HasLineEnd, ItemLine;
    ListForm(items);
    SameStart(Map(ItemLine(false), items), rest);
    hide StartsTable, WellFormed, NextBlock, Map;
    ReadList(false, items, rest);
  }

  lemma ListForm(items: seq<string>)
    ensures WellFormed(RawList(false, items)) <==>
            items != [] && ItemTexts(items) && !StartsTable(Map(ItemLine(false), items))
  {
    hide IsSpace, HasLineEnd, ItemLine, Map, IsTableDelim;
  }

  lemma ListAgain(ordered: bool, items: seq<string>, rest: seq<string>) returns (x: seq<Raw>)
    requires Parsed(RawList(ordered, items)) && !WellFormed(RawList(ordered, items)) && rest != [] && rest[0] == ""
    ensures Blocks(Printed(RawList(ordered, items)) + rest) == x + Blocks(rest)
    ensures x != [] && x[0].RawTable? && forall b :: b in x ==> !b.RawPara?
  {
    hide ItemLine, HasLineEnd, IsSpace, StartsTable, Blocks, Map, OnlyDelims;
    ItemStarts(ordered, items);
    ItemsSolid(ordered, items);
    SolidStays(Map(ItemLine(ordered), items));
    x := ItemsAgain(items, rest);
  }

  // ---- fences, parsed again -------------------------------------------------------------

  lemma StripCloses(l: string)
    ensures ClosesFence(Strip(l)) <==> ClosesFence(l)
  {
    hide Trim, Leading;
    if EndsInReturn(l) {
      assert l == Strip(l) + [l[|l| - 1]];
      ReturnIsSpace();
      TrimTail(Strip(l), '\r');
    }
  }

  lemma ReturnIsSpace()
    ensures IsSpace('\r')
  {
  }

  /** What a fence of some info string comes back as. */
  function FenceAgain(info: string, v: string): Raw {
    var lang := info[Leading(info, '`')..];
    var body := Join(Map(Strip, Split(v, '\n')), "\n");
    if lang != "" && Lower(lang) == "mermaid" then RawMermaid(body)
    else RawCode(if lang == "" then None else Some(lang), body)
  }

  lemma TicksFirst(info: string)
    ensures Leading("```" + info, '`') == 3 + Leading(info, '`')
  {
    var l := "```" + info;
    assert l[1..] == "``" + info && l[1..][1..] == "`" + info && l[1..][1..][1..] == info;
  }

  lemma WordLine(info: string)
    requires info == "" || Word(info)
    ensures var l := "```" + info; Trim(l) == l && !IsBlank(l) && Solid(l) && Strip(l) == l
  {
    hide IsSpace;
    var l := "```" + info;
    NotSpace();
    ReturnIsSpace();
    BreakIsSpace();
    if info != "" {
      WordHasNoSpace(info);
      assert l[|l| - 1] == info[|info| - 1];
    }
    TrimmedAlready(l);
    assert forall k :: 0 <= k < |info| ==> l[k + 3] == info[k];
  }

  lemma WordCut(info: string)
    requires info == "" || Word(info)
    ensures var lang := info[Leading(info, '`')..]; TrimStart(lang) == lang && !HasSpace(lang)
  {
    hide Leading, IsSpace;
    NothingHasNoSpace();
    WordHasNoSpace(info);
    var lang := info[Leading(info, '`')..];
    assert forall k :: 0 <= k < |lang| ==> lang[k] == info[Leading(info, '`') + k];
    WordTrimmed(lang);
  }

  lemma WordOpens(info: string)
    requires info == "" || Word(info)
    ensures var lang := info[Leading(info, '`')..];
      FenceOf("```" + info) == Some(if lang == "" then None else Some(lang))
  {
    hide Leading, IsSpace, Trim, IsBlank, TrimStart, Word, HasSpace;
    var l := "```" + info;
    WordLine(info);
    WordCut(info);
    TicksFirst(info);
    var n := Leading(info, '`');
    assert l[3 + n..] == info[n..];
  }

  lemma BreakIsSpace()
    ensures IsSpace('\n')
  {
  }

  lemma WordTrimmed(s: string)
    requires forall k :: 0 <= k < |s| ==> !IsSpace(s[k])
    ensures TrimStart(s) == s && !HasSpace(s)
  {
  }

  lemma FenceComesBack(info: string, v: string, rest: seq<string>)
    requires (info == "" || Word(info)) && Unclosed(Split(v, '\n'))
    ensures Blocks(Map(Strip, FenceLines(info, v)) + rest) == [FenceAgain(info, v)] + Blocks(rest)
  {
    hide Blocks, NextBlock, Split, ClosesFence, FenceOf, Lower, Leading, IsBlank, Map, Join, Solid, Word, Unclosed;
    var body := Map(Strip, Split(v, '\n'));
    var lines := ["```" + info] + (body + (["```"] + rest));
    WordLine(info);
    WordLine("");
    assert "```" + "" == "```";
    StripParts(info, v);
    assert Map(Strip, FenceLines(info, v)) + rest == lines;
    BodyStays(v);
    FenceReads(info, body, rest);
    var n := |body| + 2;
    TopBlock(lines, n);
    assert lines[n..] == rest;
  }

  lemma StripParts(info: string, v: string)
    requires Strip("```" + info) == "```" + info && Strip("```") == "```"
    ensures Map(Strip, FenceLines(info, v)) == ["```" + info] + Map(Strip, Split(v, '\n')) + ["```"]
  {
    hide Strip, Split, Map;
  }

  lemma BodyStays(v: string)
    requires Unclosed(Split(v, '\n'))
    ensures Unclosed(Map(Strip, Split(v, '\n')))
  {
    hide Split, ClosesFence, Map, Strip;
    var body := Split(v, '\n');
    forall k | 0 <= k < |body|
      ensures !ClosesFence(Strip(body[k]))
    {
      StripCloses(body[k]);
    }
  }

  lemma FenceReads(info: string, body: seq<string>, rest: seq<string>)
    requires (info == "" || Word(info)) && Unclosed(body)
    ensures var lang := info[Leading(info, '`')..];
      var v := Join(body, "\n");
      NextBlock(["```" + info] + (body + (["```"] + rest))) == Step(
        Some(if lang != "" && Lower(lang) == "mermaid" then RawMermaid(v)
             else RawCode(if lang == "" then None else Some(lang), v)),
        |body| + 2)
  {
    hide FenceOf, IsBlank, Lower, Join, Leading, Word, FenceStep, Unclosed, Solid, Trim, Strip;
    var lines := ["```" + info] + (body + (["```"] + rest));
    WordOpens(info);
    WordLine(info);
    var lang := info[Leading(info, '`')..];
    BodyReads(if lang == "" then None else Some(lang), body, rest);
    assert lines[0] == "```" + info && lines[1..] == body + (["```"] + rest);
  }

  lemma BodyReads(lang: Option<string>, body: seq<string>, rest: seq<string>)
    requires Unclosed(body)
    ensures var v := Join(body, "\n");
      FenceStep(lang, body + (["```"] + rest)) == Step(
        Some(if lang.Some? && Lower(lang.value) == "mermaid" then RawMermaid(v) else RawCode(lang, v)), |body| + 2)
  {
    hide ClosesFence, Lower, Join, Run;
    ClosingLine();
    assert forall k :: 0 <= k < |body| ==> NotClosing()(body[k]);
    RunOf(NotClosing(), body, ["```"] + rest);
  }

  /** The body of a fence comes back when no line of it ends in a carriage return. */
  lemma BodyComesBack(v: string)
    requires Unclosed(Split(v, '\n'))
    ensures Join(Map(Strip, Split(v, '\n')), "\n") == v <==> FenceBody(v)
  {
    hide ClosesFence, Split, Join;
    var body := Split(v, '\n');
    var stripped := Map(Strip, body);
    JoinSplit(v, '\n');
    forall k | 0 <= k < |body|
      ensures '\n' !in stripped[k]
    {
      StripUnbroken(body[k]);
    }
    SplitJoin(stripped, '\n');
    assert Join(stripped, "\n") == v <==> stripped == body;
    assert forall k :: 0 <= k < |body| ==> (stripped[k] == body[k] <==> Solid(body[k]));
  }

  lemma CodeForm(lang: Option<string>, v: string)
    requires Parsed(RawCode(lang, v))
    ensures WellFormed(RawCode(lang, v)) <==> FenceBody(v) && (lang.Some? ==> lang.value[0] != '`')
    ensures Unclosed(Split(v, '\n')) && (lang.Some? ==> lang.value != "" && Lower(lang.value) != "mermaid")
  {
    hide FenceBody, Split, Lower, HasSpace, Unclosed;
  }

  lemma CodeAgain(lang: Option<string>, v: string)
    requires Parsed(RawCode(lang, v))
    ensures WellFormed(RawCode(lang, v)) <==> FenceAgain(Info(lang), v) == RawCode(lang, v)
  {
    hide FenceBody, Split, Lower, Map, Join, Parsed, WellFormed, Unclosed, Leading;
    CodeForm(lang, v);
    BodyComesBack(v);
    var info := Info(lang);
    LeadingSome(info);
  }

  lemma LeadingSome(info: string)
    ensures Leading(info, '`') > 0 <==> info != "" && info[0] == '`'
    ensures Leading(info, '`') == 0 ==> info[Leading(info, '`')..] == info
  {
  }

  lemma MermaidAgain(v: string)
    requires Parsed(RawMermaid(v))
    ensures WellFormed(RawMermaid(v)) <==> FenceAgain("mermaid", v) == RawMermaid(v)
  {
    hide FenceBody, Split, Map, Join, Unclosed;
    BodyComesBack(v);
    LeadingSome("mermaid");
    MermaidWord();
  }

  // ---- a printed page, parsed again -----------------------------------------------------

  /** A paragraph that no single line can be. */
  ghost predicate Broken(raw: Raw) {
    raw.RawPara? && IsBreaker(raw.s)
  }

  /** A block comes back as itself, or as something else, or not at all. */
  lemma BlockAgain(raw: Raw, rest: seq<string>) returns (x: seq<Raw>)
    requires Parsed(raw) && rest != [] && rest[0] == ""
    ensures Blocks(Printed(raw) + rest) == x + Blocks(rest)
    ensures WellFormed(raw) ==> x == [raw]
    ensures !WellFormed(raw) && x != [] ==> x[0] != raw
    ensures !WellFormed(raw) && x == [] ==> Broken(raw)
    ensures forall b :: b in x ==> !Broken(b)
  {
    hide Blocks, Printed, WellFormed, Parsed, IsBreaker;
    if WellFormed(raw) {
      WellFormedAgain(raw, rest);
      NotBroken(raw);
      x := [raw];
    } else {
      x := SpoiledAgain(raw, rest);
    }
  }

  lemma NotBroken(raw: Raw)
    requires WellFormed(raw)
    ensures !Broken(raw)
  {
    hide IsBreaker;
    if raw.RawPara? {
      ParaForm(raw.s);
    }
  }

  lemma SpoiledAgain(raw: Raw, rest: seq<string>) returns (x: seq<Raw>)
    requires Parsed(raw) && !WellFormed(raw) && rest != [] && rest[0] == ""
    ensures Blocks(Printed(raw) + rest) == x + Blocks(rest)
    ensures if x == [] then Broken(raw) else x[0] != raw
    ensures forall b :: b in x ==> !b.RawPara?
  {
    hide Blocks, Printed, WellFormed, Parsed, IsBreaker, FenceAgain, Strip;
    match raw {
      case RawPara(s) =>
        ParaSpoiled(s);
        x := ParaAgain(s, rest);
      case RawQuote(s) =>
        QuoteSpoiled(s);
        QuoteAgain(s, rest);
        x := [RawQuote(Strip(s))];
      case RawList(ordered, items) => x := ListAgain(ordered, items, rest);
      case RawCode(lang, v) =>
        CodeAgain(lang, v);
        CodePrinted(lang, v);
        FenceComesBack(Info(lang), v, rest);
        FenceIsNoPara(Info(lang), v);
        x := [FenceAgain(Info(lang), v)];
      case RawMermaid(v) =>
        MermaidAgain(v);
        MermaidPrinted(v);
        FenceComesBack("mermaid", v, rest);
        FenceIsNoPara("mermaid", v);
        x := [FenceAgain("mermaid", v)];
      case _ =>
        OthersWellFormed(raw);
        x := [];
    }
  }

  lemma ParaSpoiled(s: string)
    requires Parsed(RawPara(s)) && !WellFormed(RawPara(s))
    ensures IsBreaker(s)
  {
    hide IsBreaker, MarkerFirst, IsSpace;
    ParaForm(s);
  }

  lemma QuoteSpoiled(s: string)
    requires Parsed(RawQuote(s)) && !WellFormed(RawQuote(s))
    ensures '\n' !in s && Strip(s) != s
  {
    QuoteForm(s);
  }

  lemma CodePrinted(lang: Option<string>, v: string)
    requires Parsed(RawCode(lang, v))
    ensures Printed(RawCode(lang, v)) == Map(Strip, FenceLines(Info(lang), v))
    ensures (Info(lang) == "" || Word(Info(lang))) && Unclosed(Split(v, '\n'))
  {
    hide Map, Strip, FenceLines, Word, Unclosed, Split, Lower;
  }

  lemma MermaidPrinted(v: string)
    requires Parsed(RawMermaid(v))
    ensures Printed(RawMermaid(v)) == Map(Strip, FenceLines("mermaid", v))
    ensures Word("mermaid") && Unclosed(Split(v, '\n'))
  {
    hide Map, Strip, FenceLines, Unclosed, Split;
    MermaidWord();
  }

  lemma FenceIsNoPara(info: string, v: string)
    ensures !FenceAgain(info, v).RawPara?
  {
  }

  lemma OthersWellFormed(raw: Raw)
    requires raw.RawHeading? || raw.RawTable? || raw.RawRule?
    ensures Parsed(raw) ==> WellFormed(raw)
  {
  }

  lemma PrintedUnbroken(raw: Raw)
    requires Parsed(raw)
    ensures Unbroken(Print(raw))
  {
    hide WellFormed, Solid, Split, FenceLines, HasLineEnd, IsSpace, IsBreaker, MarkerFirst, ItemLine, Lower, Word,
      Unclosed, RowLine, RowLines;
    match raw {
      case RawPara(s) =>
      case RawQuote(s) =>
        assert forall k :: 0 <= k < |s| ==> ("> " + s)[k + 2] == s[k];
      case RawList(ordered, items) =>
        ItemsSolid(ordered, items);
        SolidStays(Map(ItemLine(ordered), items));
      case RawCode(lang, v) => FenceUnbroken(Info(lang), v);
      case RawMermaid(v) =>
        MermaidPrinted(v);
        FenceUnbroken("mermaid", v);
      case _ =>
        OthersWellFormed(raw);
        PrintSolid(raw);
        SolidStays(Print(raw));
    }
  }

  lemma SolidUnbroken(l: string)
    requires Solid(l)
    ensures '\n' !in l
  {
  }

  lemma FenceUnbroken(info: string, v: string)
    requires info == "" || Word(info)
    ensures Unbroken(FenceLines(info, v))
  {
    hide Split, Solid, Word;
    WordLine(info);
    WordLine("");
    assert "```" + "" == "```";
    SplitUnbroken(v);
    SolidUnbroken("```" + info);
    SolidUnbroken("```");
  }

  lemma {:induction false} PrintAllUnbroken(raws: seq<Raw>)
    requires forall k :: 0 <= k < |raws| ==> Parsed(raws[k])
    ensures Unbroken(PrintAll(raws))
    ensures raws != [] ==> PrintAll(raws) != [] && PrintAll(raws)[|PrintAll(raws)| - 1] == ""
  {
    hide Print, Parsed;
    if raws == [] {
    } else {
      PrintedUnbroken(raws[0]);
      PrintAllUnbroken(raws[1..]);
    }
  }

  /** The blocks of a printed page. */
  function Again(raws: seq<Raw>): seq<Raw> {
    Blocks(Map(Strip, PrintAll(raws)))
  }

  lemma AgainStep(raws: seq<Raw>) returns (x: seq<Raw>)
    requires raws != [] && Parsed(raws[0])
    ensures Again(raws) == x + Again(raws[1..])
    ensures WellFormed(raws[0]) ==> x == [raws[0]]
    ensures !WellFormed(raws[0]) && x != [] ==> x[0] != raws[0]
    ensures !WellFormed(raws[0]) && x == [] ==> Broken(raws[0])
    ensures forall b :: b in x ==> !Broken(b)
  {
    hide Blocks, Map, Strip, WellFormed, Parsed, Broken, Print;
    var tail := Map(Strip, PrintAll(raws[1..]));
    StripEmpty();
    assert Map(Strip, PrintAll(raws)) == Printed(raws[0]) + ([""] + tail);
    x := BlockAgain(raws[0], [""] + tail);
    BlankFirst(tail);
  }

  lemma {:induction false} AgainUnbroken(raws: seq<Raw>)
    requires forall k :: 0 <= k < |raws| ==> Parsed(raws[k])
    ensures forall b :: b in Again(raws) ==> !Broken(b)
  {
    hide Again, Parsed, WellFormed, Broken;
    if raws == [] {
      AgainNothing();
    } else {
      var x := AgainStep(raws);
      AgainUnbroken(raws[1..]);
    }
  }

  lemma AgainNothing()
    ensures Again([]) == []
  {
    NoBlocks();
  }

  lemma Unlike(s: seq<Raw>, raws: seq<Raw>)
    requires raws != [] && Broken(raws[0]) && forall b :: b in s ==> !Broken(b)
    ensures s != raws
  {
    hide Broken;
    assert raws[0] in raws;
  }

  /** A page of which every block comes back is well-formed. */
  lemma {:induction false} AgainWellFormed(raws: seq<Raw>)
    requires forall k :: 0 <= k < |raws| ==> Parsed(raws[k])
    requires Again(raws) == raws
    ensures forall k :: 0 <= k < |raws| ==> WellFormed(raws[k])
  {
    hide Again, Parsed, WellFormed, Broken;
    if raws == [] {
    } else {
      var x := AgainStep(raws);
      var tail := raws[1..];
      if WellFormed(raws[0]) {
        assert Again(raws)[1..] == Again(tail) && Again(raws)[1..] == tail;
        AgainWellFormed(tail);
      } else if x == [] {
        AgainUnbroken(tail);
        Unlike(Again(tail), raws);
        assert false;
      }
    }
  }

  lemma LinesAgain(raws: seq<Raw>)
    requires forall k :: 0 <= k < |raws| ==> Parsed(raws[k])
    ensures Blocks(Lines(PrintPage(raws))) == Again(raws)
  {
    hide Parsed, Lines, Blocks, Map;
    if raws == [] {
      EmptyPage();
      AgainNothing();
    } else {
      PrintAllUnbroken(raws);
      StrippedLines(PrintAll(raws));
    }
  }

  /** Of the blocks that the parser may return, printing is undone by parsing exactly when all are
      well-formed. */
  lemma PrintParsesExactly(raws: seq<Raw>)
    requires forall k :: 0 <= k < |raws| ==> Parsed(raws[k])
    ensures Blocks(Lines(PrintPage(raws))) == raws <==> forall k :: 0 <= k < |raws| ==> WellFormed(raws[k])
  {
    hide Parsed, WellFormed, Lines, Blocks, Again;
    LinesAgain(raws);
    if Again(raws) == raws {
      AgainWellFormed(raws);
    }
    if forall k :: 0 <= k < |raws| ==> WellFormed(raws[k]) {
      ParseUndoesPrint(raws);
    }
  }

  lemma LinesUnbroken(md: string)
    ensures Unbroken(Lines(md))
  {
    hide Unix, Split;
  }

  /** Printing the blocks of a page and parsing the text again gives the same blocks exactly when no
      stretch of its lines spoils its block. */
  lemma ReprintParses(md: string)
    ensures Blocks(Lines(PrintPage(Blocks(Lines(md))))) == Blocks(Lines(md)) <==> NoneSpoiled(Pieces(Lines(md)))
    ensures NoneSpoiled(Pieces(Lines(md))) ==> Body(PrintPage(Blocks(Lines(md)))) == Body(md)
  {
    hide Blocks, Pieces, NoneSpoiled, WellFormed, Parsed, Lines, BuildAll, PrintPage;
    var raws := Blocks(Lines(md));
    LinesUnbroken(md);
    PageWellFormed(Lines(md));
    PageParsed(Lines(md));
    assert forall k :: 0 <= k < |raws| ==> raws[k] in raws;
    PrintParsesExactly(raws);
  }

  // ---- a page that comes back changed ---------------------------------------------------

  /** The paragraph of `#` over `x` comes back as a heading. */
  lemma SpoiledPage()
    ensures Blocks(Lines("#\nx")) == [RawPara("# x")]
    ensures Blocks(Lines(PrintPage([RawPara("# x")]))) == [RawHeading(1, "x")]
  {
    hide Blocks;
    HashLines();
    HashOverX();
    HashX();
    HashPrinted();
  }

  lemma HashLines()
    ensures Lines("#\nx") == ["#", "x"]
  {
    var ls := ["#", "x"];
    assert Join(ls, "\n") == "#\nx";
    LinesJoined(ls);
  }

  lemma HashPrinted()
    ensures Lines(PrintPage([RawPara("# x")])) == ["# x", ""]
  {
    var raws := [RawPara("# x")];
    assert raws[1..] == [];
    assert PrintAll(raws) == ["# x"] + ([""] + []);
    var ls := ["# x", ""];
    assert PrintAll(raws) == ls;
    LinesJoined(ls);
  }

  lemma InParaLines()
    ensures InPara("#") && InPara("x") && Trim("#") == "#" && Trim("x") == "x"
  {
    TrimmedAlready("#");
    TrimmedAlready("x");
    hide Trim;
    assert TrimStart("#") == "#" && TrimStart("x") == "x";
    assert "#"[1..] == "" && Leading("#", '#') == 1;
  }

  lemma HashOverX()
    ensures Blocks(["#", "x"]) == [RawPara("# x")]
  {
    InParaLines();
    var lines := ["#", "x"];
    hide InPara, Trim, FenceOf, HeadingOf, IsRule, IsQuote, BulletOf, IsTableDelim;
    KindExactly(lines);
    assert !('|' in lines[0]);
    assert lines[1..] == ["x"] && ["x"][1..] == [];
    assert Run(InPara, lines) == 2;
    assert lines[..2] == lines;
    assert Map(Trim, lines) == ["#", "x"];
    assert Join(["#", "x"], " ") == "# x";
    NoBlocks();
    ParaFirst(lines);
    hide NextBlock;
    assert After(lines, 2) == [];
  }

  lemma ParaFirst(lines: seq<string>)
    requires lines != [] && NextBlock(lines).raw.Some? && NextBlock(lines).raw.value.RawPara?
    ensures NextBlock(lines) == ParaStep(lines)
  {
    hide IsBlank, FenceOf, HeadingOf, IsRule, IsQuote, StartsTable, BulletOf, InPara, Join;
  }

  lemma HashForm()
    ensures WellFormed(RawHeading(1, "x"))
  {
    assert !IsLineEnd('x') && !IsSpace('x');
    assert "x"[0] == 'x' && !HasLineEnd("x") && Trimmed("x");
    hide IsLineEnd, IsSpace, HasLineEnd, Trimmed;
  }

  lemma HashPrints()
    ensures Print(RawHeading(1, "x")) == ["# x"]
  {
    var l := Print(RawHeading(1, "x"))[0];
    assert |l| == 3 && l[0] == '#' && l[1] == ' ' && l[2] == 'x';
    assert l == "# x";
  }

  lemma HashX()
    ensures Blocks(["# x", ""]) == [RawHeading(1, "x")]
  {
    hide WellFormed, NextBlock, Print, Blocks;
    HashForm();
    HashPrints();
    ReadBlock(RawHeading(1, "x"), [""]);
    var lines := ["# x", ""];
    assert ["# x"] + [""] == lines;
    TopBlock(lines, 1);
    assert lines[1..] == [""] == [""] + [];
    BlankFirst([]);
    NoBlocks();
  }
}
