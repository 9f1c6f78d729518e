/**
 The block structure of a page: which lines make which block, before any inline parsing.
 */
module Outline {
  import opened Options
  import opened Text
  import opened Lists

  /** A block with the source texts of its inline parts. */
  datatype Raw =
    | RawHeading(level: nat, s: string)
    | RawPara(s: string)
    | RawQuote(s: string)
    | RawList(ordered: bool, items: seq<string>)
    | RawCode(lang: Option<string>, v: string)
    | RawMermaid(v: string)
    | RawTable(head: seq<string>, rows: seq<seq<string>>)
    | RawRule

  // ---- what a line is -----------------------------------------------------------------

  predicate IsBlank(l: string) {
    Trim(l) == ""
  }

  /** The number of times `s` starts with `c`. */
  function Leading(s: string, c: char): (n: nat)
    ensures n <= |s|
    ensures forall k :: 0 <= k < n ==> s[k] == c
    ensures n < |s| ==> s[n] != c
  {
    if s != "" && s[0] == c then 1 + Leading(s[1..], c) else 0
  }

  predicate HasSpace(s: string) {
    exists k :: 0 <= k < |s| && IsSpace(s[k])
  }

  predicate HasLineEnd(s: string) {
    exists k :: 0 <= k < |s| && IsLineEnd(s[k])
  }

  /** The info string of a line that opens a fence: three or more backticks and at most one word. */
  function FenceOf(l: string): Option<Option<string>> {
    var t := Trim(l);
    var n := Leading(t, '`');
    var info := TrimStart(t[n..]);
    if n < 3 || HasSpace(info) then None else Some(if info == "" then None else Some(info))
  }

  predicate ClosesFence(l: string) {
    var t := Trim(l);
    |t| >= 3 && Leading(t, '`') == |t|
  }

  /** Level and text of a heading: one to six `#` at the very start, then white space. */
  function HeadingOf(l: string): Option<(nat, string)> {
    var n := Leading(l, '#');
    var k := Spaces(l[n..]);
    if n < 1 || n > 6 || k == 0 || HasLineEnd(l[n + k..]) then None else Some((n, Trim(l[n + k..])))
  }

  predicate IsRule(l: string) {
    var t := Trim(l);
    |t| >= 3 && t[0] in {'-', '*', '_'} && Leading(t, t[0]) == |t|
  }

  predicate IsQuote(l: string) {
    var t := TrimStart(l);
    t != "" && t[0] == '>'
  }

  /** A quoted line without its `>` and the white space after it, of which only one goes. */
  function QuoteBody(l: string): string
    requires IsQuote(l)
  {
    var t := TrimStart(l)[1..];
    if t != "" && IsSpace(t[0]) then t[1..] else t
  }

  function QuoteText(l: string): string {
    if IsQuote(l) then QuoteBody(l) else ""
  }

  predicate InDelim(c: char) {
    IsSpace(c) || c == ':' || c == '|' || c == '-'
  }

  predicate IsTableDelim(l: string) {
    '-' in l && forall k :: 0 <= k < |l| ==> InDelim(l[k])
  }

  predicate IsRow(l: string) {
    '|' in l && !IsBlank(l)
  }

  /** The cells of a table line. */
  function Cells(l: string): (r: seq<string>)
    ensures r != []
  {
    var t := Trim(l);
    var u := if t != "" && t[0] == '|' then t[1..] else t;
    var v := if u != "" && u[|u| - 1] == '|' then u[..|u| - 1] else u;
    Map(Trim, Split(v, '|'))
  }

  function Digits(s: string): (n: nat)
    ensures n <= |s|
    ensures forall k :: 0 <= k < n ==> IsDigit(s[k])
    ensures n < |s| ==> !IsDigit(s[n])
  {
    if s != "" && IsDigit(s[0]) then 1 + Digits(s[1..]) else 0
  }

  /** The length of the list marker that `t` starts with, or 0. */
  function BulletMarker(t: string): (n: nat)
    ensures n <= |t|
  {
    if t != "" && t[0] in {'-', '*', '+'} then 1
    else
      var n := Digits(t);
      if n > 0 && n < |t| && t[n] == '.' then n + 1 else 0
  }

  /** Whether a list item is ordered, and its text. */
  function BulletOf(l: string): Option<(bool, string)> {
    var t := TrimStart(l);
    var n := BulletMarker(t);
    var k := Spaces(t[n..]);
    if n == 0 || k == 0 || HasLineEnd(t[n + k..]) then None else Some((IsDigit(t[0]), t[n + k..]))
  }

  predicate IsBulletOf(ordered: bool, l: string) {
    BulletOf(l).Some? && BulletOf(l).value.0 == ordered
  }

  function BulletText(l: string): string {
    match BulletOf(l)
    case Some((_, s)) => s
    case None => ""
  }

  /** A line at which a paragraph stops. */
  predicate IsBreaker(l: string) {
    var t := TrimStart(l);
    var h := Leading(t, '#');
    var n := BulletMarker(t);
    || (1 <= h <= 6 && h < |t| && IsSpace(t[h]))
    || ">" <= t || "```" <= t
    || "---" <= t || "***" <= t || "___" <= t
    || (n > 0 && n < |t| && IsSpace(t[n]))
  }

  predicate InPara(l: string) {
    !IsBlank(l) && !IsBreaker(l)
  }

  // ---- which lines make a block -------------------------------------------------------

  /** How many leading lines satisfy `p`. */
  function Run(p: string -> bool, lines: seq<string>): (n: nat)
    ensures n <= |lines|
    ensures forall k :: 0 <= k < n ==> p(lines[k])
    ensures n < |lines| ==> !p(lines[n])
  {
    if lines != [] && p(lines[0]) then 1 + Run(p, lines[1..]) else 0
  }

  function NotClosing(): string -> bool { l => !ClosesFence(l) }
  function BulletsOf(ordered: bool): string -> bool { l => IsBulletOf(ordered, l) }

  /** The block, if any, that the first line starts, and the number of lines consumed; an
      unclosed fence counts a closing line past the end. */
  datatype Step = Step(raw: Option<Raw>, used: nat)

  function FenceStep(lang: Option<string>, rest: seq<string>): (st: Step)
    ensures st.raw.Some?
  {
    var n := Run(NotClosing(), rest);
    var v := Join(rest[..n], "\n");
    Step(Some(if lang.Some? && Lower(lang.value) == "mermaid" then RawMermaid(v) else RawCode(lang, v)), n + 2)
  }

  function QuoteStep(lines: seq<string>): (st: Step)
    ensures st.raw.Some?
  {
    var n := Run(IsQuote, lines);
    Step(Some(RawQuote(Join(Map(QuoteText, lines[..n]), " "))), n)
  }

  function CellRows(lines: seq<string>): (r: seq<seq<string>>)
    ensures |r| == |lines|
    ensures forall k :: 0 <= k < |lines| ==> r[k] == Cells(lines[k])
  {
    seq(|lines|, k requires 0 <= k < |lines| => Cells(lines[k]))
  }

  function TableStep(lines: seq<string>): (st: Step)
    requires |lines| >= 2
    ensures st.raw.Some?
  {
    var n := Run(IsRow, lines[2..]);
    Step(Some(RawTable(Cells(lines[0]), CellRows(lines[2..][..n]))), n + 2)
  }

  function ListStep(ordered: bool, lines: seq<string>): (st: Step)
    ensures st.raw.Some?
  {
    var n := Run(BulletsOf(ordered), lines);
    Step(Some(RawList(ordered, Map(BulletText, lines[..n]))), n)
  }

  function ParaStep(lines: seq<string>): Step {
    var n := Run(InPara, lines);
    if n == 0 then Step(None, 1) else Step(Some(RawPara(Join(Map(Trim, lines[..n]), " "))), n)
  }

  predicate StartsTable(lines: seq<string>)
    requires lines != []
  {
    '|' in lines[0] && |lines| > 1 && IsTableDelim(lines[1])
  }

  function NextBlock(lines: seq<string>): (st: Step)
    requires lines != []
    ensures st.used >= 1
  {
    var l := lines[0];
    if IsBlank(l) then Step(None, 1)
    else if FenceOf(l).Some? then FenceStep(FenceOf(l).value, lines[1..])
    else if HeadingOf(l).Some? then Step(Some(RawHeading(HeadingOf(l).value.0, HeadingOf(l).value.1)), 1)
    else if IsRule(l) then Step(Some(RawRule), 1)
    else if IsQuote(l) then QuoteStep(lines)
    else if StartsTable(lines) then TableStep(lines)
    else if BulletOf(l).Some? then
      assert BulletsOf(BulletOf(l).value.0)(l);
      ListStep(BulletOf(l).value.0, lines)
    else ParaStep(lines)
  }

  /** The lines left after `used` of them. */
  function After(lines: seq<string>, used: nat): (r: seq<string>)
    ensures |r| == if used <= |lines| then |lines| - used else 0
  {
    if used <= |lines| then lines[used..] else []
  }

  function Blocks(lines: seq<string>): seq<Raw>
    decreases |lines|
  {
    if lines == [] then []
    else
      var st := NextBlock(lines);
      (if st.raw.Some? then [st.raw.value] else []) + Blocks(After(lines, st.used))
  }

  /** `md.replace(/\r\n/g, "\n")`. */
  function Unix(md: string): string {
    if |md| >= 2 && md[0] == '\r' && md[1] == '\n' then "\n" + Unix(md[2..])
    else if md == "" then ""
    else [md[0]] + Unix(md[1..])
  }

  /** The lines of a page. */
  function Lines(md: string): (r: seq<string>)
    ensures r != []
  {
    Split(Unix(md), '\n')
  }
}
