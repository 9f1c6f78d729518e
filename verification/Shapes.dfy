/**
 What a line must look like to open a block or to go on with one, character by character.
 */
module Shapes {
  import opened Text
  import opened Lists
  import opened Options
  import opened Outline
  import opened Conservation

  ghost predicate White(s: string) {
    forall k :: 0 <= k < |s| ==> IsSpace(s[k])
  }

  ghost predicate Only(s: string, c: char) {
    forall k :: 0 <= k < |s| ==> s[k] == c
  }

  ghost predicate Unspaced(s: string) {
    forall k :: 0 <= k < |s| ==> !IsSpace(s[k])
  }

  ghost predicate OneLine(s: string) {
    forall k :: 0 <= k < |s| ==> !IsLineEnd(s[k])
  }

  // ---- cutting a line into white space and the rest ---------------------------------------

  lemma CutStart(l: string) returns (pad: string)
    ensures l == pad + TrimStart(l) && White(pad)
  {
    hide IsSpace;
    pad := l[..Spaces(l)];
  }

  lemma CutEnd(s: string) returns (tail: string)
    ensures s == TrimEnd(s) + tail && White(tail)
  {
    hide IsSpace, TrimEnd;
    tail := s[|TrimEnd(s)|..];
  }

  /** A line is its trimmed text between two stretches of white space. */
  lemma CutBoth(l: string) returns (pad: string, tail: string)
    ensures l == pad + Trim(l) + tail && White(pad) && White(tail)
  {
    hide White, TrimStart, TrimEnd;
    pad := CutStart(l);
    tail := CutEnd(TrimStart(l));
    assert pad + (Trim(l) + tail) == pad + Trim(l) + tail;
  }

  lemma StartAfter(pad: string, s: string)
    requires White(pad) && (s == "" || !IsSpace(s[0]))
    ensures TrimStart(pad + s) == s && Spaces(pad + s) == |pad|
  {
    hide IsSpace;
    TrimStartPadded(pad, s);
    var t := pad + s;
    assert forall k :: 0 <= k < |pad| ==> t[k] == pad[k];
    assert s != "" ==> t[|pad|] == s[0];
  }

  lemma BlankExactly(l: string)
    ensures IsBlank(l) <==> White(l)
  {
    hide IsSpace, Trim;
    if IsBlank(l) {
      var pad, tail := CutBoth(l);
      assert l == pad + tail;
    }
    if White(l) {
      TrimPadded(l, "", "");
      assert l + "" + "" == l;
    }
  }

  // ---- runs of one character -------------------------------------------------------------

  lemma LeadingOf(run: string, c: char, rest: string)
    requires Only(run, c) && (rest == "" || rest[0] != c)
    ensures Leading(run + rest, c) == |run|
  {
    var s := run + rest;
    assert forall k :: 0 <= k < |run| ==> s[k] == run[k];
    assert rest != "" ==> s[|run|] == rest[0];
    var n := Leading(s, c);
    hide Leading;
  }

  lemma CutLeading(s: string, c: char)
    ensures Only(s[..Leading(s, c)], c)
    ensures s == s[..Leading(s, c)] + s[Leading(s, c)..]
    ensures s[Leading(s, c)..] == "" || s[Leading(s, c)..][0] != c
  {
    hide Leading;
  }

  // ---- fences ------------------------------------------------------------------------------

  /** White space, three or more backticks, white space, at most one word, white space. */
  ghost predicate FenceShape(l: string, word: string) {
    exists pad: string, ticks: string, gap: string, tail: string ::
      && l == pad + (ticks + (gap + word)) + tail
      && White(pad) && White(gap) && White(tail)
      && |ticks| >= 3 && Only(ticks, '`')
      && Unspaced(word) && (gap == "" ==> word == "" || word[0] != '`')
  }

  lemma TickIsNoSpace()
    ensures !IsSpace('`') && !IsSpace('>') && !IsSpace('#')
  {
  }

  lemma UnspacedWord(s: string)
    ensures Unspaced(s) <==> !HasSpace(s)
  {
  }

  lemma FenceFits(pad: string, ticks: string, gap: string, word: string, tail: string)
    requires White(pad) && White(gap) && White(tail)
    requires |ticks| >= 3 && Only(ticks, '`')
    requires Unspaced(word) && (gap == "" ==> word == "" || word[0] != '`')
    ensures FenceOf(pad + (ticks + (gap + word)) + tail) == Some(if word == "" then None else Some(word))
  {
    hide IsSpace, Trim, TrimStart, Leading, HasSpace;
    TickIsNoSpace();
    UnspacedWord(word);
    var l := pad + (ticks + (gap + word)) + tail;
    if word == "" {
      assert l == pad + ticks + (gap + tail);
      TrimPadded(pad, ticks, gap + tail);
      LeadingOf(ticks, '`', "");
      assert ticks + "" == ticks && ticks[|ticks|..] == "";
      StartAfter("", "");
      assert "" + "" == "";
    } else {
      var t := ticks + (gap + word);
      assert t[0] == ticks[0] && t[|t| - 1] == word[|word| - 1];
      TrimPadded(pad, t, tail);
      assert gap != "" ==> (gap + word)[0] == gap[0];
      LeadingOf(ticks, '`', gap + word);
      assert t[|ticks|..] == gap + word;
      StartAfter(gap, word);
    }
  }

  lemma FenceCut(l: string)
    requires FenceOf(l).Some?
    ensures FenceShape(l, if FenceOf(l).value.Some? then FenceOf(l).value.value else "")
  {
    hide IsSpace, Trim, TrimStart, Leading, HasSpace;
    var t := Trim(l);
    var n := Leading(t, '`');
    CutLeading(t, '`');
    var pad, tail := CutBoth(l);
    var gap := CutStart(t[n..]);
    var word := TrimStart(t[n..]);
    UnspacedWord(word);
    assert l == pad + (t[..n] + (gap + word)) + tail;
    assert gap == "" ==> word == t[n..];
  }

  lemma FenceRead(l: string, word: string)
    requires FenceShape(l, word)
    ensures FenceOf(l) == Some(if word == "" then None else Some(word))
  {
    hide FenceOf, White, Only, Unspaced;
    var pad, ticks, gap, tail: string :|
      && l == pad + (ticks + (gap + word)) + tail
      && White(pad) && White(gap) && White(tail)
      && |ticks| >= 3 && Only(ticks, '`')
      && Unspaced(word) && (gap == "" ==> word == "" || word[0] != '`');
    hide FenceShape;
    FenceFits(pad, ticks, gap, word, tail);
  }

  /** What opens a fence, and its info word. */
  lemma FenceExact(l: string, word: string)
    ensures FenceOf(l) == Some(if word == "" then None else Some(word)) <==> FenceShape(l, word)
  {
    hide FenceOf, FenceShape;
    if FenceShape(l, word) {
      FenceRead(l, word);
    } else if FenceOf(l).Some? {
      FenceCut(l);
      NoEmptyInfo(l);
    }
  }

  lemma NoEmptyInfo(l: string)
    ensures FenceOf(l) != Some(Some(""))
  {
  }

  /** A line of three or more of the same character, but for white space around them. */
  ghost predicate RunShape(l: string, c: char) {
    exists pad: string, run: string, tail: string ::
      l == pad + run + tail && White(pad) && White(tail) && |run| >= 3 && Only(run, c)
  }

  lemma RunFits(l: string, c: char)
    requires !IsSpace(c)
    ensures RunShape(l, c) <==> |Trim(l)| >= 3 && Leading(Trim(l), c) == |Trim(l)|
  {
    hide IsSpace, Trim, Leading;
    if RunShape(l, c) {
      var pad, run, tail: string :|
        l == pad + run + tail && White(pad) && White(tail) && |run| >= 3 && Only(run, c);
      TrimPadded(pad, run, tail);
      LeadingOf(run, c, "");
      assert run + "" == run;
    }
    if |Trim(l)| >= 3 && Leading(Trim(l), c) == |Trim(l)| {
      var pad, tail := CutBoth(l);
      CutLeading(Trim(l), c);
      assert Trim(l)[..|Trim(l)|] == Trim(l);
    }
  }

  lemma SignsAreNoSpace()
    ensures !IsSpace('-') && !IsSpace('*') && !IsSpace('_') && !IsSpace('`')
  {
  }

  lemma LeadingFirst(t: string, c: char)
    requires t != "" && Leading(t, c) == |t|
    ensures t[0] == c
  {
  }

  /** What closes a fence, and what is a rule. */
  lemma ClosesExact(l: string)
    ensures ClosesFence(l) <==> RunShape(l, '`')
    ensures IsRule(l) <==> RunShape(l, '-') || RunShape(l, '*') || RunShape(l, '_')
  {
    hide RunShape, Trim, Leading, IsSpace;
    SignsAreNoSpace();
    RunFits(l, '`');
    RunFits(l, '-');
    RunFits(l, '*');
    RunFits(l, '_');
    var t := Trim(l);
    if |t| >= 3 {
      forall c | Leading(t, c) == |t|
        ensures t[0] == c
      {
        LeadingFirst(t, c);
      }
    }
  }

  // ---- headings ----------------------------------------------------------------------------

  /** One to six `#` at the very start, white space, and a text on one line. */
  ghost predicate HeadingShape(l: string, level: nat, s: string) {
    exists marks: string, gap: string, tail: string ::
      && l == marks + (gap + (s + tail))
      && |marks| == level && Only(marks, '#') && gap != "" && White(gap) && White(tail)
      && (s == "" ==> tail == "") && OneLine(s + tail)
      && (s == "" || (!IsSpace(s[0]) && !IsSpace(s[|s| - 1])))
  }

  lemma OneLineHas(s: string)
    ensures OneLine(s) <==> !HasLineEnd(s)
  {
  }

  lemma HeadingFits(marks: string, gap: string, s: string, tail: string)
    requires 1 <= |marks| <= 6 && Only(marks, '#') && gap != "" && White(gap) && White(tail)
    requires (s == "" ==> tail == "") && OneLine(s + tail)
    requires s == "" || (!IsSpace(s[0]) && !IsSpace(s[|s| - 1]))
    ensures HeadingOf(marks + (gap + (s + tail))) == Some((|marks|, s))
  {
    hide IsSpace, Trim, Leading, Spaces, HasLineEnd, IsLineEnd;
    var l := marks + (gap + (s + tail));
    var n := |marks|;
    TickIsNoSpace();
    assert (gap + (s + tail))[0] == gap[0];
    LeadingOf(marks, '#', gap + (s + tail));
    assert l[n..] == gap + (s + tail);
    assert s != "" ==> (s + tail)[0] == s[0];
    StartAfter(gap, s + tail);
    assert l[n + |gap|..] == s + tail;
    OneLineHas(s + tail);
    TrimPadded("", s, tail);
    assert "" + s + tail == s + tail;
  }

  /** What comes after the marks and the white space. */
  function HeadingRest(l: string): string {
    var n := Leading(l, '#');
    l[n..][Spaces(l[n..])..]
  }

  lemma RestReads(l: string)
    requires HeadingOf(l).Some?
    ensures 1 <= HeadingOf(l).value.0 <= 6 && HeadingOf(l) == Some((Leading(l, '#'), Trim(HeadingRest(l))))
    ensures Spaces(l[Leading(l, '#')..]) > 0
    ensures OneLine(HeadingRest(l)) && (HeadingRest(l) == "" || !IsSpace(HeadingRest(l)[0]))
  {
    hide IsSpace, Trim, Leading, Spaces, HasLineEnd, IsLineEnd;
    var n := Leading(l, '#');
    DropTwice(l, n, Spaces(l[n..]));
    OneLineHas(HeadingRest(l));
    StartNoSpace(l[n..]);
  }

  /** A text that starts with none and its white space at the end. */
  lemma CutRest(body: string) returns (tail: string)
    requires body == "" || !IsSpace(body[0])
    ensures body == Trim(body) + tail && White(tail) && (Trim(body) == "" ==> tail == "")
  {
    hide IsSpace, TrimEnd;
    Already(body);
    tail := CutEnd(body);
  }

  lemma HeadingCut(l: string)
    requires HeadingOf(l).Some?
    ensures 1 <= HeadingOf(l).value.0 <= 6 && HeadingShape(l, HeadingOf(l).value.0, HeadingOf(l).value.1)
  {
    hide IsSpace, Trim, Leading, Spaces, OneLine, HeadingOf;
    RestReads(l);
    var n := Leading(l, '#');
    CutLeading(l, '#');
    var body := HeadingRest(l);
    var gap := l[n..][..Spaces(l[n..])];
    assert l[n..] == gap + body;
    var tail := CutRest(body);
    TrimEnds(body);
    var s := Trim(body);
    assert l == l[..n] + (gap + (s + tail));
    assert White(gap) && gap != "";
  }

  lemma StartNoSpace(r: string)
    ensures r[Spaces(r)..] == "" || !IsSpace(r[Spaces(r)..][0])
  {
    hide IsSpace;
  }

  /** What is a heading, its level and its text. */
  lemma HeadingExact(l: string, level: nat, s: string)
    ensures HeadingOf(l) == Some((level, s)) <==> 1 <= level <= 6 && HeadingShape(l, level, s)
  {
    hide HeadingOf, White, Only, OneLine, IsSpace;
    if HeadingOf(l) == Some((level, s)) {
      HeadingCut(l);
    }
    if 1 <= level <= 6 && HeadingShape(l, level, s) {
      var marks, gap, tail: string :|
        && l == marks + (gap + (s + tail))
        && |marks| == level && Only(marks, '#') && gap != "" && White(gap) && White(tail)
        && (s == "" ==> tail == "") && OneLine(s + tail)
        && (s == "" || (!IsSpace(s[0]) && !IsSpace(s[|s| - 1])));
      HeadingFits(marks, gap, s, tail);
    }
  }

  // ---- quotes ------------------------------------------------------------------------------

  /** White space, a `>`, at most one white space character of those after it, and the text. */
  ghost predicate QuoteShape(l: string, s: string) {
    exists pad: string, gap: string ::
      l == pad + (">" + (gap + s)) && White(pad) && White(gap) && |gap| <= 1
      && (gap == "" ==> s == "" || !IsSpace(s[0]))
  }

  lemma QuoteFits(pad: string, gap: string, s: string)
    requires White(pad) && White(gap) && |gap| <= 1 && (gap == "" ==> s == "" || !IsSpace(s[0]))
    ensures IsQuote(pad + (">" + (gap + s))) && QuoteText(pad + (">" + (gap + s))) == s
  {
    hide IsSpace, TrimStart;
    TickIsNoSpace();
    var t := ">" + (gap + s);
    StartAfter(pad, t);
    assert t[1..] == gap + s;
    assert gap == "" ==> gap + s == s;
    assert gap != "" ==> (gap + s)[0] == gap[0] && (gap + s)[1..] == s;
  }

  lemma QuoteCut(l: string)
    requires IsQuote(l)
    ensures QuoteShape(l, QuoteText(l))
  {
    hide IsSpace, TrimStart;
    var pad := CutStart(l);
    var t := TrimStart(l);
    var u := t[1..];
    var gap := if u != "" && IsSpace(u[0]) then u[..1] else "";
    assert u == gap + QuoteText(l);
    assert t == ">" + u;
  }

  lemma QuoteExact(l: string, s: string)
    ensures IsQuote(l) && QuoteText(l) == s <==> QuoteShape(l, s)
  {
    hide IsQuote, QuoteText, White, IsSpace;
    if IsQuote(l) && QuoteText(l) == s {
      QuoteCut(l);
    }
    if QuoteShape(l, s) {
      var pad, gap: string :|
        l == pad + (">" + (gap + s)) && White(pad) && White(gap) && |gap| <= 1
        && (gap == "" ==> s == "" || !IsSpace(s[0]));
      QuoteFits(pad, gap, s);
    }
  }

  // ---- list items --------------------------------------------------------------------------

  /** A dash, star or plus, or a number and a full stop. */
  ghost predicate ItemMark(mark: string, ordered: bool) {
    if ordered then
      |mark| >= 2 && mark[|mark| - 1] == '.' && forall k :: 0 <= k < |mark| - 1 ==> '0' <= mark[k] <= '9'
    else mark == "-" || mark == "*" || mark == "+"
  }

  /** White space, a mark, white space, and a text on one line. */
  ghost predicate ItemShape(l: string, ordered: bool, s: string) {
    exists pad: string, mark: string, gap: string ::
      && l == pad + (mark + (gap + s))
      && White(pad) && ItemMark(mark, ordered) && gap != "" && White(gap)
      && OneLine(s) && (s == "" || !IsSpace(s[0]))
  }

  lemma {:induction false} DigitsOf(run: string, rest: string)
    requires (forall k :: 0 <= k < |run| ==> '0' <= run[k] <= '9') && (rest == "" || !IsDigit(rest[0]))
    ensures Digits(run + rest) == |run|
  {
    if run == "" {
      assert run + rest == rest;
    } else {
      assert (run + rest)[1..] == run[1..] + rest;
      DigitsOf(run[1..], rest);
    }
  }

  lemma MarkRead(mark: string, ordered: bool, rest: string)
    requires ItemMark(mark, ordered)
    ensures BulletMarker(mark + rest) == |mark| && IsDigit((mark + rest)[0]) == ordered
    ensures !IsSpace(mark[0])
  {
    hide Digits;
    var t := mark + rest;
    assert t[0] == mark[0];
    if ordered {
      var n := |mark| - 1;
      assert t == mark[..n] + (mark[n..] + rest);
      assert (mark[n..] + rest)[0] == '.';
      DigitsOf(mark[..n], mark[n..] + rest);
      assert t[n] == mark[n];
    }
  }

  lemma ItemFits(pad: string, mark: string, ordered: bool, gap: string, s: string)
    requires White(pad) && ItemMark(mark, ordered) && gap != "" && White(gap)
    requires OneLine(s) && (s == "" || !IsSpace(s[0]))
    ensures BulletOf(pad + (mark + (gap + s))) == Some((ordered, s))
  {
    hide IsSpace, TrimStart, Spaces, BulletMarker, HasLineEnd, IsLineEnd, ItemMark;
    MarkLong(mark, ordered);
    MarkRead(mark, ordered, gap + s);
    var t := mark + (gap + s);
    assert t[0] == mark[0];
    StartAfter(pad, t);
    assert t[|mark|..] == gap + s;
    StartAfter(gap, s);
    assert t[|mark| + |gap|..] == s;
    OneLineHas(s);
  }

  lemma MarkLong(mark: string, ordered: bool)
    requires ItemMark(mark, ordered)
    ensures mark != ""
  {
  }

  lemma MarkCut(t: string)
    requires BulletMarker(t) > 0
    ensures t != "" && ItemMark(t[..BulletMarker(t)], IsDigit(t[0]))
  {
    var n := BulletMarker(t);
    var mark := t[..n];
    if t[0] !in {'-', '*', '+'} {
      assert mark[n - 1] == '.';
      assert forall k :: 0 <= k < n - 1 ==> mark[k] == t[k];
    }
  }

  /** White space at the start of a text, and what follows it. */
  lemma CutGap(r: string, k: nat)
    requires k == Spaces(r)
    ensures r == r[..k] + r[k..] && White(r[..k]) && (r[k..] == "" || !IsSpace(r[k..][0]))
  {
    hide IsSpace;
    StartNoSpace(r);
  }

  lemma ItemReads(l: string)
    requires BulletOf(l).Some?
    ensures var t := TrimStart(l);
      var r := t[BulletMarker(t)..];
      && BulletMarker(t) > 0 && Spaces(r) > 0 && OneLine(r[Spaces(r)..])
      && BulletOf(l) == Some((IsDigit(t[0]), r[Spaces(r)..]))
  {
    hide IsSpace, TrimStart, Spaces, BulletMarker, HasLineEnd, IsLineEnd;
    var t := TrimStart(l);
    var n := BulletMarker(t);
    DropTwice(t, n, Spaces(t[n..]));
    OneLineHas(t[n + Spaces(t[n..])..]);
  }

  lemma ItemCut(l: string)
    requires BulletOf(l).Some?
    ensures ItemShape(l, BulletOf(l).value.0, BulletOf(l).value.1)
  {
    hide IsSpace, TrimStart, Spaces, BulletMarker, BulletOf, ItemMark, White, OneLine, IsDigit;
    ItemReads(l);
    var pad := CutStart(l);
    var t := TrimStart(l);
    var n := BulletMarker(t);
    var r := t[n..];
    var k := Spaces(r);
    MarkCut(t);
    CutGap(r, k);
    assert t == t[..n] + (r[..k] + r[k..]);
    assert l == pad + (t[..n] + (r[..k] + r[k..]));
  }

  /** What is a list item, of which kind, and its text. */
  lemma ItemExact(l: string, ordered: bool, s: string)
    ensures BulletOf(l) == Some((ordered, s)) <==> ItemShape(l, ordered, s)
  {
    hide BulletOf, White, ItemMark, OneLine, IsSpace;
    if BulletOf(l) == Some((ordered, s)) {
      ItemCut(l);
    }
    if ItemShape(l, ordered, s) {
      var pad, mark, gap: string :|
        && l == pad + (mark + (gap + s))
        && White(pad) && ItemMark(mark, ordered) && gap != "" && White(gap)
        && OneLine(s) && (s == "" || !IsSpace(s[0]));
      ItemFits(pad, mark, ordered, gap, s);
    }
  }

  // ---- tables ------------------------------------------------------------------------------

  /** A delimiter row has a dash, and otherwise only dashes, colons, bars and white space. */
  lemma DelimExact(l: string)
    ensures IsTableDelim(l) <==> '-' in l && forall k :: 0 <= k < |l| ==> l[k] in {'-', ':', '|'} || IsSpace(l[k])
  {
    hide IsSpace;
  }

  lemma RowExact(l: string)
    ensures IsRow(l) <==> exists k :: 0 <= k < |l| && l[k] == '|'
  {
    if k :| 0 <= k < |l| && l[k] == '|' {
      BarIsNotBlank(l);
    }
  }

  /** The cells of a line: between its bars, but for one at either end, trimmed. */
  ghost predicate CellsShape(l: string, cells: seq<string>) {
    exists pad: string, lead: string, parts: seq<string>, trail: string, tail: string ::
      && l == pad + (lead + (Join(parts, "|") + trail)) + tail
      && White(pad) && White(tail)
      && lead in {"", "|"} && trail in {"", "|"}
      && (forall k :: 0 <= k < |parts| ==> '|' !in parts[k])
      && parts != [] && cells == Map(Trim, parts)
      && Whole(lead, Join(parts, "|"), trail)
  }

  /** Neither end has more white space or another bar to give. */
  ghost predicate Whole(lead: string, inner: string, trail: string) {
    var t := lead + (inner + trail);
    && (t == "" || (!IsSpace(t[0]) && !IsSpace(t[|t| - 1])))
    && (lead == "" ==> t == "" || t[0] != '|')
    && (trail == "" ==> inner == "" || inner[|inner| - 1] != '|')
  }

  function Unled(t: string): string {
    if t != "" && t[0] == '|' then t[1..] else t
  }

  function Untrailed(u: string): string {
    if u != "" && u[|u| - 1] == '|' then u[..|u| - 1] else u
  }

  /** What is left of a trimmed line without its bars. */
  function Inside(t: string): string {
    Untrailed(Unled(t))
  }

  lemma InsideWhole(lead: string, v: string, trail: string)
    requires lead in {"", "|"} && trail in {"", "|"} && Whole(lead, v, trail)
    ensures Inside(lead + (v + trail)) == v
  {
    hide IsSpace;
    var u := v + trail;
    var t := lead + u;
    assert lead == "|" ==> t[0] == '|' && t[1..] == u;
    assert lead == "" ==> t == u;
    assert trail == "|" ==> u[|u| - 1] == '|' && u[..|u| - 1] == v;
    assert trail == "" ==> u == v;
  }

  lemma CellsInside(l: string)
    ensures Cells(l) == Map(Trim, Split(Inside(Trim(l)), '|'))
  {
    hide Trim, Map, Split;
  }

  lemma LeadCut(t: string) returns (lead: string)
    ensures t == lead + Unled(t) && lead in {"", "|"} && (lead == "" ==> t == "" || t[0] != '|')
  {
    if t != "" && t[0] == '|' {
      lead := t[..1];
      assert lead == "|";
    } else {
      lead := "";
    }
  }

  lemma TrailCut(u: string) returns (trail: string)
    ensures u == Untrailed(u) + trail && trail in {"", "|"}
    ensures trail == "" ==> Untrailed(u) == "" || Untrailed(u)[|Untrailed(u)| - 1] != '|'
  {
    if u != "" && u[|u| - 1] == '|' {
      trail := u[|u| - 1..];
      assert trail == "|";
    } else {
      trail := "";
    }
  }

  lemma InsideCut(t: string) returns (lead: string, trail: string)
    requires t == "" || (!IsSpace(t[0]) && !IsSpace(t[|t| - 1]))
    ensures t == lead + (Inside(t) + trail) && lead in {"", "|"} && trail in {"", "|"}
    ensures Whole(lead, Inside(t), trail)
  {
    hide IsSpace, Whole, Unled, Untrailed;
    lead := LeadCut(t);
    trail := TrailCut(Unled(t));
    WholeOf(lead, Inside(t), trail, t);
  }

  lemma WholeOf(lead: string, v: string, trail: string, t: string)
    requires t == lead + (v + trail)
    requires t == "" || (!IsSpace(t[0]) && !IsSpace(t[|t| - 1]))
    requires lead == "" ==> t == "" || t[0] != '|'
    requires trail == "" ==> v == "" || v[|v| - 1] != '|'
    ensures Whole(lead, v, trail)
  {
    hide IsSpace;
  }

  lemma CellsCut(l: string)
    ensures CellsShape(l, Cells(l))
  {
    hide IsSpace, Trim, Map, Split, Join, Inside, Whole, White, Cells;
    var t := Trim(l);
    TrimEnds(l);
    CellsInside(l);
    var pad, tail := CutBoth(l);
    var lead, trail := InsideCut(t);
    var parts := Split(Inside(t), '|');
    JoinSplit(Inside(t), '|');
    assert l == pad + (lead + (Join(parts, "|") + trail)) + tail;
  }

  lemma CellsFit(pad: string, lead: string, parts: seq<string>, trail: string, tail: string)
    requires White(pad) && White(tail) && lead in {"", "|"} && trail in {"", "|"}
    requires parts != [] && forall k :: 0 <= k < |parts| ==> '|' !in parts[k]
    requires Whole(lead, Join(parts, "|"), trail)
    ensures Cells(pad + (lead + (Join(parts, "|") + trail)) + tail) == Map(Trim, parts)
  {
    hide IsSpace, Trim, Map, Split, Join, Inside, Cells;
    var v := Join(parts, "|");
    var t := lead + (v + trail);
    TrimPadded(pad, t, tail);
    CellsInside(pad + t + tail);
    InsideWhole(lead, v, trail);
    SplitJoin(parts, '|');
  }

  lemma CellsExact(l: string, cells: seq<string>)
    ensures Cells(l) == cells <==> CellsShape(l, cells)
  {
    hide Cells, White, Whole, Map, Join, Trim;
    CellsCut(l);
    if CellsShape(l, cells) {
      var pad: string, lead: string, parts: seq<string>, trail: string, tail: string :|
        && l == pad + (lead + (Join(parts, "|") + trail)) + tail
        && White(pad) && White(tail)
        && lead in {"", "|"} && trail in {"", "|"}
        && (forall k :: 0 <= k < |parts| ==> '|' !in parts[k])
        && parts != [] && cells == Map(Trim, parts)
        && Whole(lead, Join(parts, "|"), trail);
      CellsFit(pad, lead, parts, trail, tail);
    }
  }

  // ---- what stops a paragraph ----------------------------------------------------------------

  /** What a line may start with, after white space, to stop a paragraph. */
  ghost predicate Stopper(head: string) {
    || head == ">" || head == "```" || head == "---" || head == "***" || head == "___"
    || (2 <= |head| <= 7 && Only(head[..|head| - 1], '#') && IsSpace(head[|head| - 1]))
    || (|head| >= 2 && IsSpace(head[|head| - 1])
        && (ItemMark(head[..|head| - 1], true) || ItemMark(head[..|head| - 1], false)))
  }

  ghost predicate BreakerShape(l: string) {
    exists pad: string, head: string, rest: string :: l == pad + (head + rest) && White(pad) && Stopper(head)
  }

  lemma StopperStarts(head: string)
    requires Stopper(head)
    ensures head != "" && !IsSpace(head[0])
  {
    hide IsSpace;
    SignsAreNoSpace();
    TickIsNoSpace();
    TripleLiterals();
    if |head| >= 2 && IsSpace(head[|head| - 1]) && ItemMark(head[..|head| - 1], true) {
      MarkRead(head[..|head| - 1], true, "");
      assert head[..|head| - 1][0] == head[0];
    } else if |head| >= 2 && IsSpace(head[|head| - 1]) && ItemMark(head[..|head| - 1], false) {
      MarkRead(head[..|head| - 1], false, "");
      assert head[..|head| - 1][0] == head[0];
    } else if 2 <= |head| <= 7 && Only(head[..|head| - 1], '#') {
      assert head[..|head| - 1][0] == head[0];
    }
  }

  lemma StopperBreaks(head: string, rest: string)
    requires Stopper(head)
    ensures var t := head + rest;
      var h := Leading(t, '#');
      var n := BulletMarker(t);
      || (1 <= h <= 6 && h < |t| && IsSpace(t[h]))
      || ">" <= t || "```" <= t || "---" <= t || "***" <= t || "___" <= t
      || (n > 0 && n < |t| && IsSpace(t[n]))
  {
    hide IsSpace, Leading, BulletMarker, ItemMark;
    TickIsNoSpace();
    var t := head + rest;
    assert head <= t;
    if |head| >= 2 && IsSpace(head[|head| - 1]) {
      var n := |head| - 1;
      var mark, more := head[..n], [head[n]] + rest;
      assert t == mark + more && t[n] == head[n] == more[0];
      if Only(mark, '#') {
        LeadingOf(mark, '#', more);
      }
      if ItemMark(mark, true) {
        MarkRead(mark, true, more);
      }
      if ItemMark(mark, false) {
        MarkRead(mark, false, more);
      }
    }
  }

  lemma HashStops(t: string)
    requires var h := Leading(t, '#'); 1 <= h <= 6 && h < |t| && IsSpace(t[h])
    ensures Stopper(t[..Leading(t, '#') + 1])
  {
    hide IsSpace, Leading, ItemMark;
    var h := Leading(t, '#');
    CutLeading(t, '#');
    assert t[..h + 1][..h] == t[..h] && t[..h + 1][h] == t[h];
  }

  lemma MarkStops(t: string)
    requires var n := BulletMarker(t); n > 0 && n < |t| && IsSpace(t[n])
    ensures Stopper(t[..BulletMarker(t) + 1])
  {
    hide IsSpace, BulletMarker, ItemMark;
    var n := BulletMarker(t);
    MarkCut(t);
    assert t[..n + 1][..n] == t[..n] && t[..n + 1][n] == t[n];
  }

  lemma BreakerCut(t: string) returns (head: string, rest: string)
    requires t == "" || !IsSpace(t[0])
    requires IsBreaker(t)
    ensures t == head + rest && Stopper(head)
  {
    hide IsSpace, Leading, BulletMarker, ItemMark, TrimStart, Only;
    Already(t);
    var h, n, k := Leading(t, '#'), BulletMarker(t), 3;
    if 1 <= h <= 6 && h < |t| && IsSpace(t[h]) {
      HashStops(t);
      k := h + 1;
    } else if n > 0 && n < |t| && IsSpace(t[n]) {
      MarkStops(t);
      k := n + 1;
    } else if ">" <= t {
      k := 1;
    }
    head, rest := t[..k], t[k..];
  }

  lemma Already(t: string)
    requires t == "" || !IsSpace(t[0])
    ensures TrimStart(t) == t
  {
  }

  /** What stops a paragraph. */
  lemma BreakerExact(l: string)
    ensures IsBreaker(l) <==> BreakerShape(l)
  {
    hide White, Stopper, IsSpace, TrimStart, Leading, BulletMarker;
    var pad := CutStart(l);
    var t := TrimStart(l);
    SpacesFirst(l);
    if IsBreaker(l) {
      var head, rest := BreakerCut(t);
    }
    if BreakerShape(l) {
      var pad', head, rest: string :| l == pad' + (head + rest) && White(pad') && Stopper(head);
      StopperStarts(head);
      assert (head + rest)[0] == head[0];
      StartAfter(pad', head + rest);
      StopperBreaks(head, rest);
    }
  }
}
