/**
 Which parsed blocks are well-formed: all but four kinds, told by the lines they were parsed from.
 */
module Reprint {
  import opened Text
  import opened Lists
  import opened Options
  import opened Outline
  import opened Conservation
  import opened Printer

  /** A list or heading marker without anything after it. */
  predicate BareMarker(t: string) {
    || (1 <= |t| <= 6 && Leading(t, '#') == |t|)
    || (t != "" && BulletMarker(t) == |t|)
  }

  predicate EndsInReturn(l: string) {
    l != "" && l[|l| - 1] == '\r'
  }

  predicate OnlyDelims(l: string) {
    forall k :: 0 <= k < |l| ==> InDelim(l[k])
  }

  /** A block that would read differently if it were printed in its own form. */
  ghost predicate Spoiled(p: Piece)
    requires p.lines != [] && p.raw.Some?
  {
    var ls := p.lines;
    match p.raw.value
    // joined to the next line, the marker opens a heading or a list
    case RawPara(_) => |ls| > 1 && BareMarker(Trim(ls[0]))
    // a carriage return joins the line break
    case RawQuote(_) => EndsInReturn(QuoteText(ls[|ls| - 1]))
    case RawCode(lang, _) => SpoiledBody(ls[1..]) || (lang.Some? && "`" <= lang.value)
    case RawMermaid(_) => SpoiledBody(ls[1..])
    // with another bullet, the second item is a table's delimiter row
    case RawList(ordered, items) => !ordered && |items| > 1 && '|' in items[0] && OnlyDelims(items[1])
    case _ => false
  }

  ghost predicate SpoiledBody(ls: seq<string>) {
    exists k :: 0 <= k < |ls| && !ClosesFence(ls[k]) && EndsInReturn(ls[k])
  }

  ghost predicate Unbroken(ls: seq<string>) {
    forall k :: 0 <= k < |ls| ==> '\n' !in ls[k]
  }

  // ---- joined texts -------------------------------------------------------------------

  lemma {:induction false} JoinEnds(parts: seq<string>)
    requires parts != []
    ensures var s, last := Join(parts, " "), parts[|parts| - 1];
      && (last != "" ==> s != "" && s[|s| - 1] == last[|last| - 1])
      && (last == "" ==> s == "" || s[|s| - 1] == ' ')
    ensures parts[0] <= Join(parts, " ")
  {
    if |parts| == 1 {
    } else {
      JoinEnds(parts[1..]);
      var r := Join(parts[1..], " ");
      var s := parts[0] + " " + r;
      assert Join(parts, " ") == s;
      assert r != "" ==> s[|s| - 1] == r[|r| - 1];
      assert r == "" ==> s[|s| - 1] == ' ';
    }
  }

  lemma JoinUnbroken(parts: seq<string>)
    requires Unbroken(parts)
    ensures '\n' !in Join(parts, " ")
  {
    JoinedHasNo(parts, " ", '\n');
  }

  // ---- paragraphs ---------------------------------------------------------------------

  lemma LeadingPrefix(t: string, u: string, c: char)
    requires t <= u
    ensures Leading(t, c) < |t| ==> Leading(u, c) == Leading(t, c)
    ensures Leading(u, c) <= |t| ==> Leading(t, c) == Leading(u, c)
  {
    var m, n := Leading(t, c), Leading(u, c);
    assert forall k :: 0 <= k < |t| ==> t[k] == u[k];
  }

  lemma DigitsPrefix(t: string, u: string)
    requires t <= u
    ensures Digits(t) < |t| ==> Digits(u) == Digits(t)
    ensures Digits(u) <= |t| ==> Digits(t) == Digits(u)
  {
    var m, n := Digits(t), Digits(u);
    assert forall k :: 0 <= k < |t| ==> t[k] == u[k];
  }

  lemma BulletPrefix(t: string, u: string)
    requires t <= u && t != ""
    ensures 0 < BulletMarker(t) ==> BulletMarker(u) == BulletMarker(t)
    ensures BulletMarker(u) <= |t| ==> BulletMarker(t) == BulletMarker(u)
  {
    hide Digits;
    DigitsPrefix(t, u);
    assert forall k :: 0 <= k < |t| ==> t[k] == u[k];
  }

  /** No marker reaches across a space. */
  lemma BulletWithin(t: string, rest: string)
    requires t != ""
    ensures BulletMarker(t + " " + rest) <= |t|
  {
    hide Digits;
    var u := t + " " + rest;
    assert u[|t|] == ' ' && u[0] == t[0];
  }

  predicate HashBreaks(t: string) {
    var h := Leading(t, '#');
    1 <= h <= 6 && h < |t| && IsSpace(t[h])
  }

  predicate SignBreaks(t: string) {
    ">" <= t || "```" <= t || "---" <= t || "***" <= t || "___" <= t
  }

  predicate ItemBreaks(t: string) {
    var n := BulletMarker(t);
    n > 0 && n < |t| && IsSpace(t[n])
  }

  lemma BreakerParts(t: string)
    requires t != "" && !IsSpace(t[0])
    ensures IsBreaker(t) <==> HashBreaks(t) || SignBreaks(t) || ItemBreaks(t)
  {
    hide Leading, BulletMarker, IsSpace, TrimStart;
    StartsAt(t);
  }

  lemma HashTail(t: string, u: string)
    requires t <= u && HashBreaks(t)
    ensures HashBreaks(u)
  {
    hide Leading, IsSpace;
    LeadingPrefix(t, u, '#');
  }

  lemma ItemTail(t: string, u: string)
    requires t <= u && ItemBreaks(t)
    ensures ItemBreaks(u)
  {
    hide BulletMarker, IsSpace;
    BulletPrefix(t, u);
  }

  lemma BreakerTail(t: string, u: string)
    requires t <= u && t != "" && !IsSpace(t[0]) && IsBreaker(t)
    ensures IsBreaker(u)
  {
    hide HashBreaks, ItemBreaks, IsSpace, IsBreaker;
    BreakerParts(t);
    BreakerParts(u);
    if HashBreaks(t) {
      HashTail(t, u);
    } else if ItemBreaks(t) {
      ItemTail(t, u);
    }
  }

  lemma StartsAt(t: string)
    requires t != "" && !IsSpace(t[0])
    ensures TrimStart(t) == t
  {
  }

  lemma HashJoined(t: string, rest: string)
    requires t != ""
    ensures HashBreaks(t + " " + rest) <==> HashBreaks(t) || (1 <= |t| <= 6 && Leading(t, '#') == |t|)
  {
    hide Leading, IsSpace;
    SpaceIsSpace();
    var u := t + " " + rest;
    LeadingPrefix(t, u, '#');
    assert u[|t|] == ' ';
    HashesWithin(u, |t|);
  }

  lemma ItemJoined(t: string, rest: string)
    requires t != ""
    ensures ItemBreaks(t + " " + rest) <==> ItemBreaks(t) || BulletMarker(t) == |t|
  {
    hide BulletMarker, IsSpace;
    SpaceIsSpace();
    var u := t + " " + rest;
    BulletPrefix(t, u);
    BulletWithin(t, rest);
    assert u[|t|] == ' ';
  }

  /** Which first words make a joined paragraph break. */
  lemma JoinedBreaks(t: string, rest: string)
    requires t != "" && !IsSpace(t[0]) && !IsBreaker(t)
    ensures IsBreaker(t + " " + rest) <==> BareMarker(t)
  {
    hide Leading, BulletMarker, IsSpace, IsBreaker, HashBreaks, ItemBreaks;
    var u := t + " " + rest;
    assert u[0] == t[0];
    BreakerParts(t);
    BreakerParts(u);
    HashJoined(t, rest);
    ItemJoined(t, rest);
    NoTriple(t, rest);
  }

  lemma SpaceIsSpace()
    ensures IsSpace(' ')
  {
  }

  lemma HashesWithin(u: string, k: nat)
    requires k < |u| && u[k] == ' '
    ensures Leading(u, '#') <= k
  {
  }

  lemma NoTriple(t: string, rest: string)
    requires t != ""
    ensures ">" <= t + " " + rest ==> ">" <= t
    ensures "```" <= t + " " + rest ==> "```" <= t
    ensures "---" <= t + " " + rest ==> "---" <= t
    ensures "***" <= t + " " + rest ==> "***" <= t
    ensures "___" <= t + " " + rest ==> "___" <= t
  {
    TripleLiterals();
    TripleWithin(t, rest, '`');
    TripleWithin(t, rest, '-');
    TripleWithin(t, rest, '*');
    TripleWithin(t, rest, '_');
  }

  lemma TripleWithin(t: string, rest: string, c: char)
    requires c != ' '
    ensures [c, c, c] <= t + " " + rest ==> [c, c, c] <= t
  {
    var u := t + " " + rest;
    assert u[|t|] == ' ';
    if [c, c, c] <= u {
      assert u[0] == c && u[1] == c && u[2] == c;
      assert t[..3] == u[..3] == [c, c, c];
    }
  }

  lemma TrimNotBreaker(l: string)
    requires InPara(l)
    ensures Trim(l) != "" && Trimmed(Trim(l)) && !IsBreaker(Trim(l))
  {
    hide TrimEnd, Spaces, Leading, BulletMarker, IsSpace;
    TrimEnds(l);
    var t, u := Trim(l), TrimStart(l);
    assert t <= u;
    if IsBreaker(t) {
      BreakerTail(t, u);
      StartsAt(u);
      SameBreaker(l);
      assert false;
    }
  }

  lemma SameBreaker(l: string)
    requires TrimStart(TrimStart(l)) == TrimStart(l)
    ensures IsBreaker(TrimStart(l)) == IsBreaker(l)
  {
    hide TrimStart, Leading, BulletMarker, IsSpace;
  }

  lemma ParaForm(s: string)
    ensures WellFormed(RawPara(s)) <==> s != "" && Trimmed(s) && '\n' !in s && !IsBreaker(s)
  {
    hide Trimmed, IsBreaker;
  }

  /** The text of a paragraph: its words come from its lines, its ends are no white space. */
  lemma ParaText(ls: seq<string>)
    requires ls != [] && Unbroken(ls) && forall k :: 0 <= k < |ls| ==> InPara(ls[k])
    ensures var parts := Map(Trim, ls);
      var s := Join(parts, " ");
      && s != "" && Trimmed(s) && '\n' !in s
      && parts[0] != "" && Trimmed(parts[0]) && !IsBreaker(parts[0])
      && s == if |ls| == 1 then parts[0] else parts[0] + " " + Join(parts[1..], " ")
  {
    hide Trim, IsBreaker, InPara, Map, IsSpace;
    var parts := Map(Trim, ls);
    forall k | 0 <= k < |ls|
      ensures parts[k] != "" && Trimmed(parts[k]) && !IsBreaker(parts[k]) && '\n' !in parts[k]
    {
      TrimNotBreaker(ls[k]);
      TrimKeepsOut(ls[k], '\n');
    }
    JoinEnds(parts);
    JoinUnbroken(parts);
    assert Join(parts, " ")[0] == parts[0][0];
  }

  lemma ParaWellFormed(ls: seq<string>)
    requires ls != [] && Unbroken(ls) && forall k :: 0 <= k < |ls| ==> InPara(ls[k])
    ensures WellFormed(RawPara(Join(Map(Trim, ls), " "))) <==> !(|ls| > 1 && BareMarker(Trim(ls[0])))
  {
    hide Trim, IsBreaker, InPara, BareMarker, Map, Join, WellFormed, IsSpace, Unbroken;
    var parts := Map(Trim, ls);
    ParaText(ls);
    ParaForm(Join(parts, " "));
    if |ls| > 1 {
      JoinedBreaks(parts[0], Join(parts[1..], " "));
    }
  }

  // ---- quotes and lists ---------------------------------------------------------------

  lemma QuoteUnbroken(l: string)
    requires '\n' !in l
    ensures '\n' !in QuoteText(l)
  {
    hide Spaces, IsSpace;
    if IsQuote(l) {
      var q := QuoteText(l);
      var n := |l| - |q|;
      assert forall k :: 0 <= k < |q| ==> q[k] == l[n + k];
    }
  }

  lemma QuoteForm(s: string)
    ensures WellFormed(RawQuote(s)) <==> Solid(s)
  {
    hide Solid;
  }

  lemma SolidJoin(parts: seq<string>)
    requires parts != [] && Unbroken(parts)
    ensures Solid(Join(parts, " ")) <==> !EndsInReturn(parts[|parts| - 1])
  {
    JoinEnds(parts);
    JoinUnbroken(parts);
    hide Join, Unbroken;
  }

  lemma QuotesUnbroken(ls: seq<string>)
    requires Unbroken(ls)
    ensures Unbroken(Map(QuoteText, ls))
  {
    hide QuoteText, Map;
    forall k | 0 <= k < |ls|
      ensures '\n' !in QuoteText(ls[k])
    {
      QuoteUnbroken(ls[k]);
    }
  }

  lemma QuoteWellFormed(ls: seq<string>)
    requires ls != [] && Unbroken(ls)
    ensures WellFormed(RawQuote(Join(Map(QuoteText, ls), " "))) <==> !EndsInReturn(QuoteText(ls[|ls| - 1]))
  {
    hide QuoteText, Map, Join, WellFormed, Unbroken, Solid, EndsInReturn;
    var parts := Map(QuoteText, ls);
    QuotesUnbroken(ls);
    QuoteForm(Join(parts, " "));
    SolidJoin(parts);
  }

  lemma ItemText(ordered: bool, l: string)
    requires IsBulletOf(ordered, l)
    ensures !HasLineEnd(BulletText(l)) && (BulletText(l) == "" || !IsSpace(BulletText(l)[0]))
  {
    hide HasLineEnd, BulletMarker, TrimStart, IsSpace;
    var t := TrimStart(l);
    var n := BulletMarker(t);
    var k := Spaces(t[n..]);
    assert t[n..][k..] == t[n + k..];
    assert k < |t[n..]| ==> t[n..][k] == t[n + k];
  }

  lemma ItemStarts(ordered: bool, items: seq<string>)
    requires items != []
    ensures StartsTable(Map(ItemLine(ordered), items)) <==>
            !ordered && |items| > 1 && '|' in items[0] && OnlyDelims(items[1])
  {
    hide Map;
    var own := Map(ItemLine(ordered), items);
    var mark := if ordered then "1. " else "- ";
    assert own[0] == mark + items[0];
    assert '|' in own[0] <==> '|' in items[0];
    if |items| > 1 {
      ItemDelim(ordered, items[1]);
      assert own[1] == ItemLine(ordered)(items[1]);
    }
  }

  lemma ItemDelim(ordered: bool, s: string)
    ensures IsTableDelim(ItemLine(ordered)(s)) <==> !ordered && OnlyDelims(s)
  {
    hide IsSpace;
    SpaceIsSpace();
    var l := ItemLine(ordered)(s);
    if ordered {
      OneIsNoSpace();
      assert l[0] == '1';
    } else {
      assert l[0] == '-' && l[1] == ' ';
      assert forall k :: 0 <= k < |s| ==> l[k + 2] == s[k];
    }
  }

  lemma OneIsNoSpace()
    ensures !IsSpace('1')
  {
  }

  lemma ListWellFormed(ordered: bool, ls: seq<string>)
    requires ls != [] && forall k :: 0 <= k < |ls| ==> IsBulletOf(ordered, ls[k])
    ensures var items := Map(BulletText, ls);
      WellFormed(RawList(ordered, items)) <==>
      !(!ordered && |items| > 1 && '|' in items[0] && OnlyDelims(items[1]))
  {
    hide IsBulletOf, BulletText, HasLineEnd, StartsTable, OnlyDelims, IsSpace, Map;
    var items := Map(BulletText, ls);
    forall k | 0 <= k < |items|
      ensures !HasLineEnd(items[k]) && (items[k] == "" || !IsSpace(items[k][0]))
    {
      ItemText(ordered, ls[k]);
    }
    ItemStarts(ordered, items);
  }

  // ---- tables, headings and fences ----------------------------------------------------

  lemma CellsWellFormed(l: string)
    requires '\n' !in l
    ensures forall k :: 0 <= k < |Cells(l)| ==> CellText(Cells(l)[k])
  {
    hide Trim, Split, Map;
    var t := Trim(l);
    TrimKeepsOut(l, '\n');
    var u := if t != "" && t[0] == '|' then t[1..] else t;
    var v := if u != "" && u[|u| - 1] == '|' then u[..|u| - 1] else u;
    forall k | 0 <= k < |Cells(l)|
      ensures CellText(Cells(l)[k])
    {
      var part := Split(v, '|')[k];
      SplitKeepsOut(v, '|', '\n', k);
      TrimKeepsOut(part, '\n');
      TrimKeepsOut(part, '|');
      TrimEnds(part);
    }
  }

  lemma TableWellFormed(ls: seq<string>)
    requires |ls| >= 2 && Unbroken(ls)
    ensures WellFormed(RawTable(Cells(ls[0]), CellRows(ls[2..])))
  {
    hide Cells, CellText;
    CellsWellFormed(ls[0]);
    forall r | 0 <= r < |ls| - 2
      ensures forall k :: 0 <= k < |Cells(ls[2..][r])| ==> CellText(Cells(ls[2..][r])[k])
    {
      assert ls[2..][r] == ls[r + 2];
      CellsWellFormed(ls[2..][r]);
    }
  }

  lemma HeadingWellFormed(l: string)
    requires HeadingOf(l).Some?
    ensures var (level, s) := HeadingOf(l).value; WellFormed(RawHeading(level, s))
  {
    hide Leading, Spaces, IsLineEnd, IsSpace, Trim;
    var n := Leading(l, '#');
    var body := l[n + Spaces(l[n..])..];
    TrimEnds(body);
    TrimNoLineEnd(body);
  }

  lemma TrimNoLineEnd(s: string)
    requires !HasLineEnd(s)
    ensures !HasLineEnd(Trim(s))
  {
    hide IsLineEnd, IsSpace, TrimEnd;
    var t := Trim(s);
    assert forall k :: 0 <= k < |t| ==> t[k] == TrimStart(s)[k] == s[Spaces(s) + k];
  }

  /** The lines that a fence's text splits into are none that close it. */
  lemma BodySplit(v: string, ls: seq<string>)
    requires Unbroken(ls) && Fenced(v, ls)
    ensures forall k :: 0 <= k < |Split(v, '\n')| ==> !ClosesFence(Split(v, '\n')[k])
    ensures SpoiledBody(ls) <==> SpoiledBody(Split(v, '\n'))
  {
    hide ClosesFence, Join, Split;
    var body: seq<string> :|
      && v == Join(body, "\n")
      && (forall k :: 0 <= k < |body| ==> !ClosesFence(body[k]))
      && (ls == body || exists close :: ls == body + [close] && ClosesFence(close));
    assert forall k :: 0 <= k < |body| ==> body[k] == ls[k];
    if body == [] {
      EmptyBody();
    } else {
      SplitJoin(body, '\n');
      assert Split(v, '\n') == body;
    }
  }

  lemma BodyWellFormed(v: string, ls: seq<string>)
    requires Unbroken(ls) && Fenced(v, ls)
    ensures FenceBody(v) <==> !SpoiledBody(ls)
  {
    hide ClosesFence, Fenced, Split;
    BodySplit(v, ls);
    SplitUnbroken(v);
  }

  lemma SplitUnbroken(v: string)
    ensures Unbroken(Split(v, '\n'))
  {
    hide Split;
  }

  lemma EmptyBody()
    ensures Join([], "\n") == "" && Split("", '\n') == [""] && !ClosesFence("")
  {
  }

  lemma InfoWellFormed(l: string)
    requires FenceOf(l).Some? && FenceOf(l).value.Some?
    ensures var info := FenceOf(l).value.value; InfoWord(info) <==> !("`" <= info)
  {
    hide Trim, Leading, TrimStart, HasSpace;
    var info := FenceOf(l).value.value;
    assert "`" <= info <==> info[0] == '`';
  }

  // ---- parsed pages -------------------------------------------------------------------

  /** A parsed block is well-formed exactly when its lines do not spoil it. */
  lemma PieceWellFormed(p: Piece)
    requires p.lines != [] && p.raw.Some? && Unbroken(p.lines) && Accounts(p)
    ensures WellFormed(p.raw.value) <==> !Spoiled(p)
  {
    hide HeadingOf, IsRule, Trim, Map, Join, InPara, QuoteText, IsQuote, BulletText, IsBulletOf, IsTableDelim, Cells,
      CellRows, FenceOf, Fenced, FenceBody, BareMarker, StartsTable, HasLineEnd, InfoWord, CellText, SpoiledBody, Solid,
      IsBreaker, OnlyDelims, IsSpace, Lower;
    var ls := p.lines;
    match p.raw.value {
      case RawHeading(_, _) => HeadingWellFormed(ls[0]);
      case RawPara(_) => ParaWellFormed(ls);
      case RawQuote(_) => QuoteWellFormed(ls);
      case RawList(ordered, _) => ListWellFormed(ordered, ls);
      case RawTable(_, _) => TableWellFormed(ls);
      case RawCode(lang, v) =>
        BodyWellFormed(v, ls[1..]);
        if lang.Some? {
          InfoWellFormed(ls[0]);
        }
      case RawMermaid(v) => BodyWellFormed(v, ls[1..]);
      case RawRule =>
    }
  }

  ghost predicate NoneSpoiled(ps: seq<Piece>) {
    forall p :: p in ps && p.lines != [] && p.raw.Some? ==> !Spoiled(p)
  }

  lemma {:induction false} PiecesUnbroken(lines: seq<string>)
    requires Unbroken(lines)
    ensures forall p :: p in Pieces(lines) ==> Unbroken(p.lines)
    decreases |lines|
  {
    hide NextBlock;
    if lines == [] {
    } else {
      PiecesUnbroken(After(lines, NextBlock(lines).used));
    }
  }

  lemma {:induction false} BlocksOfPieces(ps: seq<Piece>, b: Raw)
    ensures b in AllBlocks(ps) <==> exists p :: p in ps && p.raw == Some(b)
  {
    if ps == [] {
    } else {
      BlocksOfPieces(ps[1..], b);
      assert ps == [ps[0]] + ps[1..];
    }
  }

  /** All blocks of a page are well-formed exactly when no stretch of its lines spoils one. */
  lemma PageWellFormed(lines: seq<string>)
    requires Unbroken(lines)
    ensures (forall b :: b in Blocks(lines) ==> WellFormed(b)) <==> NoneSpoiled(Pieces(lines))
  {
    hide NextBlock, Blocks, Pieces, AllBlocks, WellFormed, Spoiled, Accounts, Unbroken;
    PiecesTile(lines);
    PageAccounts(lines);
    PiecesUnbroken(lines);
    var ps := Pieces(lines);
    forall p | p in ps && p.raw.Some?
      ensures WellFormed(p.raw.value) <==> !Spoiled(p)
    {
      PieceWellFormed(p);
    }
    forall b
      ensures b in Blocks(lines) <==> exists p :: p in ps && p.raw == Some(b)
    {
      BlocksOfPieces(ps, b);
    }
    if forall b :: b in Blocks(lines) ==> WellFormed(b) {
      forall p | p in ps && p.lines != [] && p.raw.Some?
        ensures !Spoiled(p)
      {
        assert p.raw == Some(p.raw.value);
        assert p.raw.value in Blocks(lines);
      }
    }
  }
}
