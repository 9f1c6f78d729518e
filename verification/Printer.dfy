/**
 Parsing undoes printing: a printer for block structures, and the proof that the parser
 reads back what it printed.
 */
module Printer {
  import opened Text
  import opened Lists
  import opened Options
  import opened Outline
  import opened Conservation
  import opened Page

  // ---- printing -----------------------------------------------------------------------

  function Padded(c: string): string { " " + c + " " }

  function RowLine(cells: seq<string>): string {
    "|" + Join(Map(Padded, cells), "|") + "|"
  }

  function RowLines(rows: seq<seq<string>>): (r: seq<string>)
    ensures |r| == |rows|
    ensures forall k :: 0 <= k < |rows| ==> r[k] == RowLine(rows[k])
  {
    seq(|rows|, k requires 0 <= k < |rows| => RowLine(rows[k]))
  }

  function ItemLine(ordered: bool): string -> string {
    s => (if ordered then "1. " else "- ") + s
  }

  function Info(lang: Option<string>): string {
    if lang.Some? then lang.value else ""
  }

  function FenceLines(info: string, v: string): seq<string> {
    ["```" + info] + Split(v, '\n') + ["```"]
  }

  /** The lines of a block. */
  function Print(raw: Raw): seq<string> {
    match raw
    case RawHeading(level, s) => [seq(level, _ => '#') + " " + s]
    case RawPara(s) => [s]
    case RawQuote(s) => ["> " + s]
    case RawList(ordered, items) => Map(ItemLine(ordered), items)
    case RawCode(lang, v) => FenceLines(Info(lang), v)
    case RawMermaid(v) => FenceLines("mermaid", v)
    case RawTable(head, rows) => [RowLine(head), RowLine(seq(|head|, _ => "---"))] + RowLines(rows)
    case RawRule => ["---"]
  }

  /** The lines of a page: every block followed by a blank line. */
  function PrintAll(raws: seq<Raw>): seq<string> {
    if raws == [] then [] else Print(raws[0]) + ([""] + PrintAll(raws[1..]))
  }

  function PrintPage(raws: seq<Raw>): string {
    Join(PrintAll(raws), "\n")
  }

  // ---- which blocks can be printed so -------------------------------------------------

  /** A line that survives joining and splitting with any kind of line break. */
  predicate Solid(l: string) {
    '\n' !in l && (l == "" || l[|l| - 1] != '\r')
  }

  predicate Trimmed(s: string) {
    s == "" || (!IsSpace(s[0]) && !IsSpace(s[|s| - 1]))
  }

  ghost predicate CellText(c: string) {
    Trimmed(c) && '|' !in c && '\n' !in c
  }

  ghost predicate FenceBody(v: string) {
    forall k :: 0 <= k < |Split(v, '\n')| ==> Solid(Split(v, '\n')[k]) && !ClosesFence(Split(v, '\n')[k])
  }

  ghost predicate InfoWord(info: string) {
    info != "" && !HasSpace(info) && info[0] != '`'
  }

  ghost predicate WellFormed(raw: Raw) {
    match raw
    case RawHeading(level, s) => 1 <= level <= 6 && Trimmed(s) && !HasLineEnd(s)
    case RawPara(s) => s != "" && Trimmed(s) && '\n' !in s && !IsBreaker(s)
    case RawQuote(s) => Solid(s)
    case RawList(ordered, items) =>
      && items != []
      && (forall k :: 0 <= k < |items| ==> !HasLineEnd(items[k]) && (items[k] == "" || !IsSpace(items[k][0])))
      // a bar in the first item over an item of dashes would be a table
      && !StartsTable(Map(ItemLine(ordered), items))
    case RawCode(lang, v) => FenceBody(v) && (lang.Some? ==> InfoWord(lang.value) && Lower(lang.value) != "mermaid")
    case RawMermaid(v) => FenceBody(v)
    case RawTable(head, rows) =>
      && head != [] && (forall k :: 0 <= k < |head| ==> CellText(head[k]))
      && forall r :: 0 <= r < |rows| ==> rows[r] != [] && forall k :: 0 <= k < |rows[r]| ==> CellText(rows[r][k])
    case RawRule => true
  }

  // ---- lines survive joining and splitting --------------------------------------------

  lemma UnixStep(c: char, s: string)
    requires c != '\r' || s == "" || s[0] != '\n'
    ensures Unix([c] + s) == [c] + Unix(s)
  {
    assert ([c] + s)[1..] == s;
  }

  lemma {:induction false} UnixLine(l: string, rest: string)
    requires Solid(l)
    ensures Unix(l + "\n" + rest) == l + "\n" + Unix(rest)
    ensures Unix(l) == l
  {
    hide Unix;
    if l == "" {
      assert l + "\n" + rest == ['\n'] + rest;
      UnixStep('\n', rest);
      UnixEmpty();
    } else {
      var m := l[1..];
      assert l == [l[0]] + m;
      assert m != "" ==> m[|m| - 1] == l[|l| - 1] && m[0] == l[1];
      UnixLine(m, rest);
      assert l + "\n" + rest == [l[0]] + (m + "\n" + rest);
      UnixStep(l[0], m + "\n" + rest);
      UnixStep(l[0], m);
    }
  }

  lemma {:induction false} UnixLines(ls: seq<string>)
    requires forall k :: 0 <= k < |ls| ==> Solid(ls[k])
    ensures Unix(Join(ls, "\n")) == Join(ls, "\n")
  {
    hide Unix, Solid;
    if |ls| == 0 {
      UnixEmpty();
    } else if |ls| == 1 {
      UnixLine(ls[0], "");
    } else {
      UnixLines(ls[1..]);
      UnixLine(ls[0], Join(ls[1..], "\n"));
    }
  }

  lemma UnixEmpty()
    ensures Unix("") == ""
  {
  }

  lemma LinesJoined(ls: seq<string>)
    requires ls != [] && forall k :: 0 <= k < |ls| ==> Solid(ls[k])
    ensures Lines(Join(ls, "\n")) == ls
  {
    UnixLines(ls);
    SplitJoin(ls, '\n');
  }

  // ---- one printed block, read back ---------------------------------------------------

  /** A run that a blank line ends. */
  lemma RunOf(p: string -> bool, ls: seq<string>, rest: seq<string>)
    requires forall k :: 0 <= k < |ls| ==> p(ls[k])
    requires rest != [] && !p(rest[0])
    ensures Run(p, ls + rest) == |ls| && (ls + rest)[..|ls|] == ls
  {
    RunMore(p, ls + rest, |ls|);
  }

  /** A line whose first character is not white space, and its trimmed forms. */
  lemma FirstStays(l: string)
    requires l != "" && !IsSpace(l[0])
    ensures Trim(l) != "" && Trim(l)[0] == l[0]
    ensures TrimStart(l) == l && Trim(l) <= l && !IsBlank(l)
  {
    TrimKeeps(l, 0);
  }

  lemma NotAFence(l: string)
    requires l != "" && !IsSpace(l[0]) && l[0] != '`'
    ensures FenceOf(l).None?
  {
    FirstStays(l);
  }

  lemma NotARule(l: string)
    requires l != "" && !IsSpace(l[0])
    requires l[0] !in {'-', '*', '_'} || (|l| > 1 && l[1] != l[0])
    ensures !IsRule(l)
  {
    FirstStays(l);
    var t := Trim(l);
    assert |t| > 1 ==> t[1] == l[1];
  }

  lemma HeadingLine(level: nat, s: string)
    requires WellFormed(RawHeading(level, s))
    ensures HeadingOf(seq(level, _ => '#') + " " + s) == Some((level, s))
  {
    hide HasLineEnd, Leading, Spaces, Trim, IsSpace;
    var l := seq(level, _ => '#') + " " + s;
    assert l[level] == ' ';
    assert Leading(l, '#') == level;
    assert l[level..] == " " + s && l[level + 1..] == s;
    OneSpace(s);
    TrimmedAlready(s);
  }

  lemma ReadHeading(level: nat, s: string, rest: seq<string>)
    requires WellFormed(RawHeading(level, s))
    ensures NextBlock(Print(RawHeading(level, s)) + rest) == Step(Some(RawHeading(level, s)), 1)
  {
    hide HeadingOf, FenceOf, IsBlank, IsSpace;
    var l := seq(level, _ => '#') + " " + s;
    assert l[0] == '#';
    NotSpace();
    FirstStays(l);
    NotAFence(l);
    HeadingLine(level, s);
    assert (Print(RawHeading(level, s)) + rest)[0] == l;
  }

  lemma NotSpace()
    ensures !IsSpace('#') && !IsSpace('>') && !IsSpace('-') && !IsSpace('|') && !IsSpace('`') && !IsSpace('1')
    ensures IsSpace(' ')
  {
  }

  lemma OneSpace(s: string)
    requires s == "" || !IsSpace(s[0])
    ensures Spaces(" " + s) == 1
  {
    assert (" " + s)[1..] == s;
  }

  lemma ReadPara(s: string, rest: seq<string>)
    requires WellFormed(RawPara(s)) && rest != [] && rest[0] == ""
    ensures NextBlock(Print(RawPara(s)) + rest) == Step(Some(RawPara(s)), 1)
  {
    hide IsBreaker, FenceOf, HeadingOf, IsRule, BulletOf, IsBlank, Trim;
    FirstStays(s);
    TrimmedAlready(s);
    NoOpener(s);
    BlankLine();
    RunOf(InPara, [s], rest);
    var lines := [s] + rest;
    assert lines[0] == s && lines[1] == "";
    assert Map(Trim, [s]) == [s];
  }

  lemma BlankLine()
    ensures IsBlank("") && !IsQuote("") && !IsRow("") && !IsTableDelim("") && BulletOf("").None? && !InPara("")
  {
  }

  lemma NoOpener(l: string)
    requires !IsBreaker(l) && TrimStart(l) == l
    ensures FenceOf(l).None? && HeadingOf(l).None? && !IsRule(l) && !IsQuote(l) && BulletOf(l).None?
  {
    hide FenceOf, HeadingOf, IsRule, BulletOf, HasLineEnd, HasSpace, BulletMarker, Trim, Spaces, TrimStart;
    FenceExactly(l);
    HeadingExactly(l);
    RuleExactly(l);
    BulletExactly(l);
  }

  lemma ReadQuote(s: string, rest: seq<string>)
    requires rest != [] && rest[0] == ""
    ensures NextBlock(Print(RawQuote(s)) + rest) == Step(Some(RawQuote(s)), 1)
  {
    hide FenceOf, HeadingOf, IsRule, IsBlank, Trim;
    var l := "> " + s;
    NotSpace();
    FirstStays(l);
    NotAFence(l);
    NotARule(l);
    HeadingExactly(l);
    assert l[1..] == " " + s && l[1..][1..] == s;
    assert QuoteText(l) == s;
    BlankLine();
    hide IsQuote, QuoteText;
    RunOf(IsQuote, [l], rest);
    var lines := [l] + rest;
    assert lines[0] == l;
    assert Map(QuoteText, [l]) == [s];
  }

  lemma ReadRule(rest: seq<string>)
    ensures NextBlock(Print(RawRule) + rest) == Step(Some(RawRule), 1)
  {
    hide FenceOf, HeadingOf, IsBlank;
    var l := "---";
    NotSpace();
    FirstStays(l);
    NotAFence(l);
    HeadingExactly(l);
    TrimmedAlready(l);
    assert IsRule(l);
    hide IsRule;
    assert (["---"] + rest)[0] == l;
  }

  // ---- lists --------------------------------------------------------------------------

  lemma BulletRead(mark: string, s: string)
    requires mark != "" && !IsSpace(mark[0]) && BulletMarker(mark + " " + s) == |mark|
    requires !HasLineEnd(s) && (s == "" || !IsSpace(s[0]))
    ensures BulletOf(mark + " " + s) == Some((IsDigit(mark[0]), s))
  {
    hide HasLineEnd, Spaces, BulletMarker, IsSpace, Trim;
    var l := mark + " " + s;
    FirstStays(l);
    assert l[|mark|..] == " " + s;
    OneSpace(s);
    assert l[|mark| + 1..] == s;
  }

  lemma ItemRead(ordered: bool, s: string)
    requires !HasLineEnd(s) && (s == "" || !IsSpace(s[0]))
    ensures var l := ItemLine(ordered)(s);
            BulletOf(l) == Some((ordered, s)) && l[0] == (if ordered then '1' else '-') && |l| > 1 && l[1] != l[0]
  {
    hide HasLineEnd, BulletOf;
    var mark := if ordered then "1." else "-";
    var l := mark + " " + s;
    assert l == ItemLine(ordered)(s);
    if ordered {
      assert l[1..][0] == '.' && Digits(l[1..]) == 0 && Digits(l) == 1;
    }
    BulletRead(mark, s);
  }

  lemma ReadList(ordered: bool, items: seq<string>, rest: seq<string>)
    requires WellFormed(RawList(ordered, items)) && rest != [] && rest[0] == ""
    ensures NextBlock(Print(RawList(ordered, items)) + rest) == Step(Some(RawList(ordered, items)), |items|)
  {
    hide FenceOf, HeadingOf, IsRule, IsBlank, BulletOf, HasLineEnd, IsTableDelim, ItemLine;
    var own := Map(ItemLine(ordered), items);
    var lines := own + rest;
    forall k | 0 <= k < |items|
      ensures BulletsOf(ordered)(own[k]) && BulletText(own[k]) == items[k]
    {
      ItemRead(ordered, items[k]);
    }
    BlankLine();
    RunOf(BulletsOf(ordered), own, rest);
    assert Map(BulletText, own) == items;
    var l := own[0];
    assert lines[0] == l;
    ItemRead(ordered, items[0]);
    NotSpace();
    FirstStays(l);
    NotAFence(l);
    NotARule(l);
    HeadingExactly(l);
    assert |lines| > 1 ==> lines[1] == if |own| > 1 then own[1] else rest[0];
  }

  // ---- tables -------------------------------------------------------------------------

  lemma PaddedTrim(c: string)
    requires Trimmed(c)
    ensures Trim(Padded(c)) == c
  {
    TrimPadded(" ", c, " ");
  }

  lemma PaddedNoBar(c: string)
    requires '|' !in c
    ensures '|' !in Padded(c)
  {
  }

  lemma RowRead(cells: seq<string>)
    requires cells != [] && forall k :: 0 <= k < |cells| ==> CellText(cells[k])
    ensures Cells(RowLine(cells)) == cells && IsRow(RowLine(cells)) && RowLine(cells)[0] == '|'
  {
    hide Trim, IsBlank, Padded;
    var padded := Map(Padded, cells);
    forall k | 0 <= k < |cells|
      ensures '|' !in padded[k] && Trim(padded[k]) == cells[k]
    {
      PaddedNoBar(cells[k]);
      PaddedTrim(cells[k]);
    }
    var inner := Join(padded, "|");
    var l := RowLine(cells);
    NotSpace();
    TrimmedAlready(l);
    FirstStays(l);
    assert l[1..] == inner + "|";
    assert (inner + "|")[..|inner|] == inner;
    SplitJoin(padded, '|');
    assert Map(Trim, padded) == cells;
  }

  lemma {:induction false} DashesAreDelim(n: nat)
    requires n > 0
    ensures var s := Join(Map(Padded, seq(n, _ => "---")), "|");
            '-' in s && forall k :: 0 <= k < |s| ==> InDelim(s[k])
  {
    hide Map;
    var ps := Map(Padded, seq(n, _ => "---"));
    var s := Join(ps, "|");
    var c := " --- ";
    assert ps[0] == c;
    assert c[1] == '-' && forall k :: 0 <= k < |c| ==> InDelim(c[k]);
    if n == 1 {
    } else {
      DashesAreDelim(n - 1);
      assert ps[1..] == Map(Padded, seq((n - 1) as nat, _ => "---"));
      var r := Join(ps[1..], "|");
      assert s == c + "|" + r;
      assert s[1] == '-';
    }
  }

  lemma DelimLine(n: nat)
    requires n > 0
    ensures IsTableDelim(RowLine(seq(n, _ => "---")))
  {
    hide Join, Map;
    DashesAreDelim(n);
    var s := Join(Map(Padded, seq(n, _ => "---")), "|");
    var l := "|" + s + "|";
    assert forall k :: 0 <= k < |s| ==> l[k + 1] == s[k];
    var k :| 0 <= k < |s| && s[k] == '-';
    assert l[k + 1] == '-';
  }

  lemma ReadTable(head: seq<string>, rows: seq<seq<string>>, rest: seq<string>)
    requires WellFormed(RawTable(head, rows)) && rest != [] && rest[0] == ""
    ensures NextBlock(Print(RawTable(head, rows)) + rest) == Step(Some(RawTable(head, rows)), |rows| + 2)
  {
    hide FenceOf, HeadingOf, IsRule, IsBlank, IsTableDelim, IsRow, Cells, RowLine, CellText;
    var own := Print(RawTable(head, rows));
    var lines := own + rest;
    var body := RowLines(rows);
    assert lines[2..] == body + rest;
    forall k | 0 <= k < |rows|
      ensures IsRow(body[k]) && Cells(body[k]) == rows[k]
    {
      RowRead(rows[k]);
    }
    BlankLine();
    RunOf(IsRow, body, rest);
    assert CellRows(body) == rows;
    var l := RowLine(head);
    assert lines[0] == l && lines[1] == RowLine(seq(|head|, _ => "---"));
    RowRead(head);
    DelimLine(|head|);
    NotSpace();
    RowStart(head);
    FirstStays(l);
    NotAFence(l);
    NotARule(l);
    HeadingExactly(l);
  }

  lemma RowStart(cells: seq<string>)
    ensures RowLine(cells) != "" && '|' in RowLine(cells)
  {
    assert RowLine(cells)[0] == '|';
  }

  // ---- fences -------------------------------------------------------------------------

  lemma FenceLine(info: string)
    requires info == "" || InfoWord(info)
    ensures var l := "```" + info; FenceOf(l) == Some(if info == "" then None else Some(info)) && !IsBlank(l)
  {
    hide HasSpace;
    var l := "```" + info;
    NotSpace();
    if info != "" {
      WordHasNoSpace(info);
      assert l[|l| - 1] == info[|info| - 1];
    }
    TrimmedAlready(l);
    FirstStays(l);
    assert l[0] == '`' && l[1] == '`' && l[2] == '`' && (info != "" ==> l[3] == info[0]);
    assert Leading(l, '`') == 3;
    assert l[3..] == info;
    NothingHasNoSpace();
  }

  lemma WordHasNoSpace(s: string)
    requires !HasSpace(s)
    ensures forall k :: 0 <= k < |s| ==> !IsSpace(s[k])
  {
  }

  lemma NothingHasNoSpace()
    ensures !HasSpace("")
  {
  }

  lemma ClosingLine()
    ensures ClosesFence("```")
  {
    TrimmedAlready("```");
  }

  lemma ReadFence(info: string, v: string, rest: seq<string>)
    requires FenceBody(v) && (info == "" || InfoWord(info))
    ensures var lines := FenceLines(info, v) + rest;
      NextBlock(lines) == Step(
        Some(if info != "" && Lower(info) == "mermaid" then RawMermaid(v)
             else RawCode(if info == "" then None else Some(info), v)),
        |FenceLines(info, v)|)
  {
    hide FenceOf, ClosesFence, IsBlank, Split, Lower, HasSpace;
    var body := Split(v, '\n');
    var lines := FenceLines(info, v) + rest;
    FenceLine(info);
    assert lines[0] == "```" + info;
    assert lines[1..] == body + (["```"] + rest);
    ClosingLine();
    assert forall k :: 0 <= k < |body| ==> NotClosing()(body[k]);
    RunOf(NotClosing(), body, ["```"] + rest);
    JoinSplit(v, '\n');
  }

  lemma MermaidWord()
    ensures InfoWord("mermaid") && Lower("mermaid") == "mermaid"
  {
  }

  // ---- a printed page, read back ------------------------------------------------------

  /** The parser reads a printed block, whatever follows its blank line. */
  lemma ReadBlock(raw: Raw, rest: seq<string>)
    requires WellFormed(raw) && rest != [] && rest[0] == ""
    ensures NextBlock(Print(raw) + rest) == Step(Some(raw), |Print(raw)|)
  {
    hide NextBlock, FenceBody, InfoWord, CellText, FenceLines;
    match raw {
      case RawHeading(level, s) => ReadHeading(level, s, rest);
      case RawPara(s) => ReadPara(s, rest);
      case RawQuote(s) => ReadQuote(s, rest);
      case RawList(ordered, items) => ReadList(ordered, items, rest);
      case RawCode(lang, v) =>
        InfoIsSome(lang);
        ReadFence(Info(lang), v, rest);
      case RawMermaid(v) =>
        MermaidWord();
        ReadFence("mermaid", v, rest);
      case RawTable(head, rows) => ReadTable(head, rows, rest);
      case RawRule => ReadRule(rest);
    }
  }

  lemma InfoIsSome(lang: Option<string>)
    requires lang.Some? ==> InfoWord(lang.value)
    ensures lang == if Info(lang) == "" then None else Some(Info(lang))
  {
  }

  lemma {:induction false} ReadAll(raws: seq<Raw>)
    requires forall k :: 0 <= k < |raws| ==> WellFormed(raws[k])
    ensures Blocks(PrintAll(raws)) == raws
  {
    hide NextBlock, Print, WellFormed;
    if raws == [] {
    } else {
      var own := Print(raws[0]);
      var rest := [""] + PrintAll(raws[1..]);
      ReadBlock(raws[0], rest);
      PrintSome(raws[0]);
      var lines := own + rest;
      assert After(lines, |own|) == rest;
      BlankFirst(PrintAll(raws[1..]));
      ReadAll(raws[1..]);
    }
  }

  lemma PrintSome(raw: Raw)
    requires WellFormed(raw)
    ensures Print(raw) != []
  {
  }

  lemma BlankFirst(lines: seq<string>)
    ensures Blocks([""] + lines) == Blocks(lines)
  {
    hide FenceOf, HeadingOf, IsRule, BulletOf;
    BlankLine();
    assert NextBlock([""] + lines) == Step(None, 1);
    hide NextBlock;
    assert After([""] + lines, 1) == lines;
  }

  // ---- printed lines are solid --------------------------------------------------------

  lemma NoLineEndSolid(l: string)
    requires !HasLineEnd(l)
    ensures Solid(l)
  {
    assert forall k :: 0 <= k < |l| ==> !IsLineEnd(l[k]);
  }

  lemma SolidAfter(prefix: string, s: string)
    requires '\n' !in prefix && prefix != "" && prefix[|prefix| - 1] != '\r' && Solid(s)
    ensures Solid(prefix + s)
  {
  }

  lemma {:induction false} JoinedHasNo(parts: seq<string>, sep: string, c: char)
    requires c !in sep && forall k :: 0 <= k < |parts| ==> c !in parts[k]
    ensures c !in Join(parts, sep)
  {
    if |parts| <= 1 {
    } else {
      JoinedHasNo(parts[1..], sep, c);
    }
  }

  lemma RowSolid(cells: seq<string>)
    requires forall k :: 0 <= k < |cells| ==> '\n' !in cells[k]
    ensures Solid(RowLine(cells))
  {
    hide Join;
    JoinedHasNo(Map(Padded, cells), "|", '\n');
  }

  lemma TrimmedSolid(s: string)
    requires Trimmed(s) && '\n' !in s
    ensures Solid(s)
  {
  }

  lemma InfoSolid(info: string)
    requires info == "" || InfoWord(info)
    ensures Solid("```" + info)
  {
    if info != "" {
      WordHasNoSpace(info);
    }
    TrimmedSolid(info);
    SolidAfter("```", info);
  }

  lemma FenceSolid(info: string, v: string)
    requires FenceBody(v) && (info == "" || InfoWord(info))
    ensures forall k :: 0 <= k < |FenceLines(info, v)| ==> Solid(FenceLines(info, v)[k])
  {
    hide Solid, InfoWord, ClosesFence, Split;
    InfoSolid(info);
    InfoSolid("");
    assert "```" + "" == "```";
  }

  lemma PrintSolid(raw: Raw)
    requires WellFormed(raw)
    ensures forall k :: 0 <= k < |Print(raw)| ==> Solid(Print(raw)[k])
  {
    hide Solid, HasLineEnd, FenceBody, FenceLines, RowLine, InfoWord, IsBreaker, StartsTable;
    match raw {
      case RawHeading(level, s) =>
        NoLineEndSolid(s);
        MarksSolid(level, s);
      case RawPara(s) => TrimmedSolid(s);
      case RawQuote(s) => SolidAfter("> ", s);
      case RawList(ordered, items) =>
        forall k | 0 <= k < |items|
          ensures Solid(ItemLine(ordered)(items[k]))
        {
          NoLineEndSolid(items[k]);
          SolidAfter(if ordered then "1. " else "- ", items[k]);
        }
      case RawCode(lang, v) =>
        InfoIsSome(lang);
        FenceSolid(Info(lang), v);
      case RawMermaid(v) =>
        MermaidWord();
        FenceSolid("mermaid", v);
      case RawTable(head, rows) =>
        RowSolid(head);
        DashesSolid(|head|);
        forall r | 0 <= r < |rows|
          ensures Solid(RowLine(rows[r]))
        {
          RowSolid(rows[r]);
        }
      case RawRule => DashSolid();
    }
  }

  lemma MarksSolid(level: nat, s: string)
    requires Solid(s)
    ensures Solid(seq(level, _ => '#') + " " + s)
  {
    hide Solid;
    SolidAfter(seq(level, _ => '#') + " ", s);
  }

  lemma DashesSolid(n: nat)
    ensures Solid(RowLine(seq(n, _ => "---")))
  {
    hide Solid;
    RowSolid(seq(n, _ => "---"));
  }

  lemma DashSolid()
    ensures Solid("---") && Solid("")
  {
  }

  lemma {:induction false} PrintAllSolid(raws: seq<Raw>)
    requires forall k :: 0 <= k < |raws| ==> WellFormed(raws[k])
    ensures forall k :: 0 <= k < |PrintAll(raws)| ==> Solid(PrintAll(raws)[k])
  {
    hide Solid, Print, WellFormed;
    if raws == [] {
    } else {
      PrintSolid(raws[0]);
      PrintAllSolid(raws[1..]);
      DashSolid();
    }
  }

  /** Parsing undoes printing: the blocks of a printed page are the blocks that were printed, and
      its tree is made of their inline trees. */
  lemma ParseUndoesPrint(raws: seq<Raw>)
    requires forall k :: 0 <= k < |raws| ==> WellFormed(raws[k])
    ensures Blocks(Lines(PrintPage(raws))) == raws
    ensures Body(PrintPage(raws)) == BuildAll(raws)
  {
    hide WellFormed, Solid, Lines, BuildAll;
    if raws == [] {
      EmptyPage();
    } else {
      PrintAllSolid(raws);
      LinesJoined(PrintAll(raws));
      ReadAll(raws);
    }
  }

  lemma EmptyPage()
    ensures Blocks(Lines(PrintPage([]))) == []
  {
    hide Blocks;
    assert Lines("") == [""];
    BlankFirst([]);
    assert [""] + [] == [""];
    NoBlocks();
  }
}
