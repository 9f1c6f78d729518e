/**
 A composed page: its block tree and its citation order.
 */
module Page {
  import opened Text
  import opened Lists
  import opened Numbering
  import opened Inline
  import opened InlineParser
  import opened Options
  import opened Outline

  type Cell = seq<Node>

  datatype Block =
    | Heading(level: nat, kids: Cell)
    | Para(kids: Cell)
    | Quote(kids: Cell)
    | List(ordered: bool, items: seq<Cell>)
    | CodeBlock(lang: Option<string>, v: string)
    | Mermaid(v: string)
    | Table(head: seq<Cell>, rows: seq<seq<Cell>>)
    | Rule

  // ---- the block tree of a page, with its citations still unnumbered -------------------

  function Trees(ss: seq<string>): (r: seq<Cell>)
    ensures |r| == |ss|
  {
    if ss == [] then [] else [Tree(ss[0])] + Trees(ss[1..])
  }

  function TreeRows(rows: seq<seq<string>>): (r: seq<seq<Cell>>)
    ensures |r| == |rows|
  {
    if rows == [] then [] else [Trees(rows[0])] + TreeRows(rows[1..])
  }

  function Build(raw: Raw): Block {
    match raw
    case RawHeading(level, s) => Heading(level, Tree(s))
    case RawPara(s) => Para(Tree(s))
    case RawQuote(s) => Quote(Tree(s))
    case RawList(ordered, items) => List(ordered, Trees(items))
    case RawCode(lang, v) => CodeBlock(lang, v)
    case RawMermaid(v) => Mermaid(v)
    case RawTable(head, rows) => Table(Trees(head), TreeRows(rows))
    case RawRule => Rule
  }

  function BuildAll(raws: seq<Raw>): (r: seq<Block>)
    ensures |r| == |raws|
  {
    if raws == [] then [] else [Build(raws[0])] + BuildAll(raws[1..])
  }

  // ---- citations of blocks, in reading order ------------------------------------------

  function CellIds(cells: seq<Cell>): seq<string> {
    if cells == [] then [] else Ids(cells[0]) + CellIds(cells[1..])
  }

  function RowIds(rows: seq<seq<Cell>>): seq<string> {
    if rows == [] then [] else CellIds(rows[0]) + RowIds(rows[1..])
  }

  /** A table's head comes before its rows; fences cite nothing. */
  function BlockIds(b: Block): seq<string> {
    match b
    case Heading(_, kids) => Ids(kids)
    case Para(kids) => Ids(kids)
    case Quote(kids) => Ids(kids)
    case List(_, items) => CellIds(items)
    case Table(head, rows) => CellIds(head) + RowIds(rows)
    case _ => []
  }

  function PageIds(bs: seq<Block>): seq<string> {
    if bs == [] then [] else BlockIds(bs[0]) + PageIds(bs[1..])
  }

  // ---- blocks with their citations numbered -------------------------------------------

  function StampCells(cells: seq<Cell>, order: seq<string>): (r: seq<Cell>)
    ensures |r| == |cells|
  {
    if cells == [] then [] else [Stamp(cells[0], order)] + StampCells(cells[1..], order)
  }

  function StampRows(rows: seq<seq<Cell>>, order: seq<string>): (r: seq<seq<Cell>>)
    ensures |r| == |rows|
  {
    if rows == [] then [] else [StampCells(rows[0], order)] + StampRows(rows[1..], order)
  }

  function StampBlock(b: Block, order: seq<string>): Block {
    match b
    case Heading(level, kids) => Heading(level, Stamp(kids, order))
    case Para(kids) => Para(Stamp(kids, order))
    case Quote(kids) => Quote(Stamp(kids, order))
    case List(ordered, items) => List(ordered, StampCells(items, order))
    case Table(head, rows) => Table(StampCells(head, order), StampRows(rows, order))
    case _ => b
  }

  function StampPage(bs: seq<Block>, order: seq<string>): (r: seq<Block>)
    ensures |r| == |bs|
  {
    if bs == [] then [] else [StampBlock(bs[0], order)] + StampPage(bs[1..], order)
  }

  /** The blocks of a page before numbering. */
  function Body(md: string): seq<Block> {
    BuildAll(Blocks(Lines(md)))
  }

  /** The memory ids of a page in the order of their first appearance. */
  function Order(md: string): seq<string> {
    FirstSeen([], PageIds(Body(md)))
  }

  // ---- growing lists keep their numbers -----------------------------------------------

  lemma {:induction false} TreesMore(ss: seq<string>, s: string)
    ensures Trees(ss + [s]) == Trees(ss) + [Tree(s)]
  {
    hide Tree;
    if ss == [] {
      assert [s][1..] == [];
    } else {
      TreesMore(ss[1..], s);
      assert (ss + [s])[1..] == ss[1..] + [s];
    }
  }

  lemma {:induction false} CellIdsMore(cells: seq<Cell>, cell: Cell)
    ensures CellIds(cells + [cell]) == CellIds(cells) + Ids(cell)
  {
    hide Ids;
    if cells == [] {
      assert [cell][1..] == [] && cells + [cell] == [cell];
    } else {
      CellIdsMore(cells[1..], cell);
      assert (cells + [cell])[1..] == cells[1..] + [cell];
    }
  }

  lemma {:induction false} StampCellsMore(cells: seq<Cell>, cell: Cell, order: seq<string>)
    ensures StampCells(cells + [cell], order) == StampCells(cells, order) + [Stamp(cell, order)]
  {
    hide Stamp;
    if cells == [] {
      assert [cell][1..] == [] && cells + [cell] == [cell];
    } else {
      StampCellsMore(cells[1..], cell, order);
      assert (cells + [cell])[1..] == cells[1..] + [cell];
    }
  }

  lemma CellsMore(ss: seq<string>, s: string, order: seq<string>)
    ensures CellIds(Trees(ss + [s])) == CellIds(Trees(ss)) + Ids(Tree(s))
    ensures StampCells(Trees(ss + [s]), order) == StampCells(Trees(ss), order) + [Stamp(Tree(s), order)]
  {
    hide Tree, Ids, Stamp, Trees, CellIds, StampCells;
    TreesMore(ss, s);
    CellIdsMore(Trees(ss), Tree(s));
    StampCellsMore(Trees(ss), Tree(s), order);
  }

  lemma {:induction false} CellsStay(cells: seq<Cell>, order: seq<string>, longer: seq<string>)
    requires order <= longer
    requires forall id :: id in CellIds(cells) ==> id in order
    ensures StampCells(cells, longer) == StampCells(cells, order)
  {
    if cells == [] {
    } else {
      StampStays(cells[0], order, longer);
      CellsStay(cells[1..], order, longer);
    }
  }

  lemma {:induction false} RowsMore(rows: seq<seq<string>>, row: seq<string>, order: seq<string>)
    ensures RowIds(TreeRows(rows + [row])) == RowIds(TreeRows(rows)) + CellIds(Trees(row))
    ensures StampRows(TreeRows(rows + [row]), order) ==
            StampRows(TreeRows(rows), order) + [StampCells(Trees(row), order)]
  {
    hide Trees, CellIds, StampCells;
    if rows == [] {
      assert [row][1..] == [];
      assert [Trees(row)][1..] == [];
    } else {
      RowsMore(rows[1..], row, order);
      assert (rows + [row])[1..] == rows[1..] + [row];
    }
  }

  lemma {:induction false} RowsStay(rows: seq<seq<Cell>>, order: seq<string>, longer: seq<string>)
    requires order <= longer
    requires forall id :: id in RowIds(rows) ==> id in order
    ensures StampRows(rows, longer) == StampRows(rows, order)
  {
    if rows == [] {
    } else {
      CellsStay(rows[0], order, longer);
      RowsStay(rows[1..], order, longer);
    }
  }

  lemma BlockStays(b: Block, order: seq<string>, longer: seq<string>)
    requires order <= longer
    requires forall id :: id in BlockIds(b) ==> id in order
    ensures StampBlock(b, longer) == StampBlock(b, order)
  {
    match b {
      case Heading(_, kids) => StampStays(kids, order, longer);
      case Para(kids) => StampStays(kids, order, longer);
      case Quote(kids) => StampStays(kids, order, longer);
      case List(_, items) => CellsStay(items, order, longer);
      case Table(head, rows) =>
        CellsStay(head, order, longer);
        RowsStay(rows, order, longer);
      case _ =>
    }
  }

  lemma {:induction false} PageStays(bs: seq<Block>, order: seq<string>, longer: seq<string>)
    requires order <= longer
    requires forall id :: id in PageIds(bs) ==> id in order
    ensures StampPage(bs, longer) == StampPage(bs, order)
  {
    if bs == [] {
    } else {
      BlockStays(bs[0], order, longer);
      PageStays(bs[1..], order, longer);
    }
  }

  lemma {:induction false} PageMore(raws: seq<Raw>, raw: Raw, order: seq<string>)
    ensures PageIds(BuildAll(raws + [raw])) == PageIds(BuildAll(raws)) + BlockIds(Build(raw))
    ensures StampPage(BuildAll(raws + [raw]), order) ==
            StampPage(BuildAll(raws), order) + [StampBlock(Build(raw), order)]
  {
    hide Build, BlockIds, StampBlock;
    if raws == [] {
      assert [raw][1..] == [];
      assert [Build(raw)][1..] == [];
    } else {
      PageMore(raws[1..], raw, order);
      assert (raws + [raw])[1..] == raws[1..] + [raw];
    }
  }

  // ---- the parser as it runs ----------------------------------------------------------

  lemma CellsStep(done: seq<string>, s: string, start: seq<string>, before: seq<string>, after: seq<string>)
    requires before == FirstSeen(start, CellIds(Trees(done)))
    requires after == FirstSeen(before, Ids(Tree(s)))
    ensures after == FirstSeen(start, CellIds(Trees(done + [s])))
    ensures StampCells(Trees(done + [s]), after) == StampCells(Trees(done), before) + [Stamp(Tree(s), after)]
  {
    hide FirstSeen, CellIds, Trees, Ids, Tree, StampCells, Stamp;
    CellsMore(done, s, after);
    FirstSeenConcat(start, CellIds(Trees(done)), Ids(Tree(s)));
    CellsStay(Trees(done), before, after);
  }

  lemma RowsStep(done: seq<seq<string>>, row: seq<string>, start: seq<string>, before: seq<string>, after: seq<string>)
    requires before == FirstSeen(start, RowIds(TreeRows(done)))
    requires after == FirstSeen(before, CellIds(Trees(row)))
    ensures after == FirstSeen(start, RowIds(TreeRows(done + [row])))
    ensures StampRows(TreeRows(done + [row]), after) ==
            StampRows(TreeRows(done), before) + [StampCells(Trees(row), after)]
  {
    hide FirstSeen, CellIds, Trees, RowIds, TreeRows, StampCells, StampRows;
    RowsMore(done, row, after);
    FirstSeenConcat(start, RowIds(TreeRows(done)), CellIds(Trees(row)));
    RowsStay(TreeRows(done), before, after);
  }

  lemma PageStep(done: seq<Raw>, raw: Raw, start: seq<string>, before: seq<string>, after: seq<string>)
    requires before == FirstSeen(start, PageIds(BuildAll(done)))
    requires after == FirstSeen(before, BlockIds(Build(raw)))
    ensures after == FirstSeen(start, PageIds(BuildAll(done + [raw])))
    ensures StampPage(BuildAll(done + [raw]), after) ==
            StampPage(BuildAll(done), before) + [StampBlock(Build(raw), after)]
  {
    hide FirstSeen, PageIds, BuildAll, BlockIds, Build, StampPage, StampBlock;
    PageMore(done, raw, after);
    FirstSeenConcat(start, PageIds(BuildAll(done)), BlockIds(Build(raw)));
    PageStays(BuildAll(done), before, after);
  }

  lemma Nothing(order: seq<string>)
    ensures FirstSeen(order, []) == order
    ensures Trees([]) == [] && CellIds([]) == [] && StampCells([], order) == []
    ensures TreeRows([]) == [] && RowIds([]) == [] && StampRows([], order) == []
    ensures BuildAll([]) == [] && PageIds([]) == [] && StampPage([], order) == []
  {
  }

  lemma RunMore(p: string -> bool, lines: seq<string>, n: nat)
    requires n <= |lines| && forall k :: 0 <= k < n ==> p(lines[k])
    requires n == |lines| || !p(lines[n])
    ensures Run(p, lines) == n
  {
  }

  /** `cells(line).map(inline)`. */
  method ParseCells(ss: seq<string>, num: Numbering) returns (out: seq<Cell>)
    modifies num
    ensures num.order == FirstSeen(old(num.order), CellIds(Trees(ss)))
    ensures out == StampCells(Trees(ss), num.order)
  {
    hide *;
    ghost var start := num.order;
    Nothing(start);
    out := [];
    assert ss[..0] == [];
    for i := 0 to |ss|
      invariant num.order == FirstSeen(start, CellIds(Trees(ss[..i])))
      invariant out == StampCells(Trees(ss[..i]), num.order)
    {
      ghost var before := num.order;
      var cell := ParseInline(ss[i], num);
      CellsStep(ss[..i], ss[i], start, before, num.order);
      assert ss[..i] + [ss[i]] == ss[..i + 1];
      out := out + [cell];
    }
    assert ss[..|ss|] == ss;
  }

  /** A fence: its lines verbatim up to a closing line or the end of the page. */
  method ParseFence(lang: Option<string>, lines: seq<string>, i: nat) returns (block: Block, next: nat)
    requires i <= |lines|
    ensures var st := FenceStep(lang, lines[i..]);
      st.raw.Some? && block == Build(st.raw.value) && next + 1 == i + st.used
    ensures block.CodeBlock? || block.Mermaid?
  {
    hide ClosesFence, Join, Lower;
    var body := [];
    ghost var rest := lines[i..];
    next := i;
    while next < |lines| && !ClosesFence(lines[next])
      invariant i <= next <= |lines|
      invariant body == lines[i..next]
      invariant forall k :: 0 <= k < next - i ==> NotClosing()(rest[k])
    {
      body := body + [lines[next]];
      next := next + 1;
    }
    RunMore(NotClosing(), rest, next - i);
    assert rest[..next - i] == body;
    next := next + 1;
    var v := Join(body, "\n");
    block := if lang.Some? && Lower(lang.value) == "mermaid" then Mermaid(v) else CodeBlock(lang, v);
  }

  lemma QuoteDone(lines: seq<string>, i: nat, next: nat)
    requires i <= next <= |lines|
    requires forall k :: 0 <= k < next - i ==> IsQuote(lines[i..][k])
    requires next == |lines| || !IsQuote(lines[next])
    ensures QuoteStep(lines[i..]) == Step(Some(RawQuote(Join(Map(QuoteText, lines[i..next]), " "))), next - i)
  {
    hide IsQuote, Map, Join;
    RunMore(IsQuote, lines[i..], next - i);
    assert lines[i..][..next - i] == lines[i..next];
  }

  lemma ParaDone(lines: seq<string>, i: nat, next: nat)
    requires i <= next <= |lines|
    requires forall k :: 0 <= k < next - i ==> InPara(lines[i..][k])
    requires next == |lines| || !InPara(lines[next])
    ensures ParaStep(lines[i..]) ==
            if next == i then Step(None, 1) else Step(Some(RawPara(Join(Map(Trim, lines[i..next]), " "))), next - i)
  {
    hide InPara, Map, Join;
    RunMore(InPara, lines[i..], next - i);
    assert lines[i..][..next - i] == lines[i..next];
  }

  method ParseQuote(lines: seq<string>, i: nat, num: Numbering) returns (block: Block, next: nat)
    requires i < |lines|
    modifies num
    ensures var st := QuoteStep(lines[i..]);
      next == i + st.used && num.order == FirstSeen(old(num.order), BlockIds(Build(st.raw.value)))
      && block == StampBlock(Build(st.raw.value), num.order)
  {
    hide FirstSeen, Tree, Ids, Stamp, IsQuote, QuoteText, Map, Join, QuoteStep;
    var body := [];
    next := i;
    while next < |lines| && IsQuote(lines[next])
      invariant i <= next <= |lines|
      invariant body == Map(QuoteText, lines[i..next])
      invariant forall k :: 0 <= k < next - i ==> IsQuote(lines[i..][k])
    {
      body := body + [QuoteText(lines[next])];
      next := next + 1;
    }
    QuoteDone(lines, i, next);
    var kids := ParseInline(Join(body, " "), num);
    block := Quote(kids);
  }

  method ParsePara(lines: seq<string>, i: nat, num: Numbering) returns (block: Option<Block>, next: nat)
    requires i < |lines|
    modifies num
    ensures var st := ParaStep(lines[i..]);
      next == i + st.used && block.Some? == st.raw.Some?
      && num.order == FirstSeen(old(num.order), if st.raw.Some? then BlockIds(Build(st.raw.value)) else [])
      && (block.Some? ==> block.value == StampBlock(Build(st.raw.value), num.order))
  {
    hide FirstSeen, Tree, Ids, Stamp, IsBlank, IsBreaker, Trim, Map, Join, ParaStep;
    Nothing(num.order);
    var para := [];
    next := i;
    while next < |lines| && !IsBlank(lines[next])
      invariant i <= next <= |lines|
      invariant para == Map(Trim, lines[i..next])
      invariant forall k :: 0 <= k < next - i ==> InPara(lines[i..][k])
    {
      if IsBreaker(lines[next]) {
        break;
      }
      para := para + [Trim(lines[next])];
      next := next + 1;
    }
    ParaDone(lines, i, next);
    if para == [] {
      return None, next + 1;
    }
    var kids := ParseInline(Join(para, " "), num);
    block := Some(Para(kids));
  }

  lemma ListDone(ordered: bool, lines: seq<string>, i: nat, next: nat)
    requires i <= next <= |lines|
    requires forall k :: 0 <= k < next - i ==> IsBulletOf(ordered, lines[i..][k])
    requires next == |lines| || !IsBulletOf(ordered, lines[next])
    ensures ListStep(ordered, lines[i..]) == Step(Some(RawList(ordered, Map(BulletText, lines[i..next]))), next - i)
  {
    hide IsBulletOf;
    assert forall k :: 0 <= k < next - i ==> BulletsOf(ordered)(lines[i..][k]);
    assert next < |lines| ==> !BulletsOf(ordered)(lines[i..][next - i]);
    RunMore(BulletsOf(ordered), lines[i..], next - i);
    assert lines[i..][..next - i] == lines[i..next];
  }

  lemma TableDone(lines: seq<string>, i: nat, next: nat)
    requires i + 1 < |lines| && i + 2 <= next <= |lines|
    requires forall k :: i + 2 <= k < next ==> IsRow(lines[k])
    requires next == |lines| || !IsRow(lines[next])
    ensures TableStep(lines[i..]) == Step(Some(RawTable(Cells(lines[i]), CellRows(lines[i + 2..next]))), next - i)
  {
    hide IsRow, Cells;
    var below := lines[i + 2..];
    assert lines[i..][2..] == below && lines[i..][0] == lines[i];
    assert forall k :: 0 <= k < |below| ==> below[k] == lines[i + 2 + k];
    RunMore(IsRow, below, next - i - 2);
    assert below[..next - i - 2] == lines[i + 2..next];
  }

  /** A table's cells are numbered head first. */
  lemma TableNumbered(head: seq<string>, rows: seq<seq<string>>,
                      outset: seq<string>, start: seq<string>, order: seq<string>)
    requires start == FirstSeen(outset, CellIds(Trees(head))) && order == FirstSeen(start, RowIds(TreeRows(rows)))
    ensures var b := Build(RawTable(head, rows));
      && order == FirstSeen(outset, BlockIds(b))
      && StampBlock(b, order) == Table(StampCells(Trees(head), start), StampRows(TreeRows(rows), order))
  {
    hide FirstSeen, Trees, CellIds, StampCells, TreeRows, RowIds, StampRows;
    FirstSeenConcat(outset, CellIds(Trees(head)), RowIds(TreeRows(rows)));
    CellsStay(Trees(head), start, order);
  }

  method ParseList(ordered: bool, lines: seq<string>, i: nat, num: Numbering) returns (block: Block, next: nat)
    requires i < |lines|
    modifies num
    ensures var st := ListStep(ordered, lines[i..]);
      next == i + st.used && num.order == FirstSeen(old(num.order), BlockIds(Build(st.raw.value)))
      && block == StampBlock(Build(st.raw.value), num.order)
  {
    hide FirstSeen, Tree, Ids, Stamp, IsBulletOf, BulletText, Map, Trees, CellIds, StampCells, ListStep;
    ghost var start := num.order;
    Nothing(start);
    var items := [];
    next := i;
    ghost var texts: seq<string> := [];
    while next < |lines|
      invariant i <= next <= |lines|
      invariant texts == Map(BulletText, lines[i..next])
      invariant num.order == FirstSeen(start, CellIds(Trees(texts)))
      invariant items == StampCells(Trees(texts), num.order)
      invariant forall k :: 0 <= k < next - i ==> IsBulletOf(ordered, lines[i..][k])
    {
      if !IsBulletOf(ordered, lines[next]) {
        break;
      }
      ghost var before := num.order;
      var s := BulletText(lines[next]);
      var item := ParseInline(s, num);
      CellsStep(texts, s, start, before, num.order);
      items := items + [item];
      texts := texts + [s];
      next := next + 1;
    }
    ListDone(ordered, lines, i, next);
    block := List(ordered, items);
  }

  method ParseTable(lines: seq<string>, i: nat, num: Numbering) returns (block: Block, next: nat)
    requires i + 1 < |lines|
    modifies num
    ensures var st := TableStep(lines[i..]);
      next == i + st.used && num.order == FirstSeen(old(num.order), BlockIds(Build(st.raw.value)))
      && block == StampBlock(Build(st.raw.value), num.order)
  {
    hide FirstSeen, Trees, CellIds, StampCells, TreeRows, RowIds, StampRows, Cells, IsRow, TableStep, Build, BlockIds,
      StampBlock;
    ghost var outset := num.order;
    var head := ParseCells(Cells(lines[i]), num);
    ghost var start := num.order;
    Nothing(start);
    var rows := [];
    next := i + 2;
    ghost var texts: seq<seq<string>> := [];
    while next < |lines| && IsRow(lines[next])
      invariant i + 2 <= next <= |lines|
      invariant texts == CellRows(lines[i + 2..next])
      invariant num.order == FirstSeen(start, RowIds(TreeRows(texts)))
      invariant rows == StampRows(TreeRows(texts), num.order)
      invariant forall k :: i + 2 <= k < next ==> IsRow(lines[k])
    {
      ghost var before := num.order;
      var row := ParseCells(Cells(lines[next]), num);
      RowsStep(texts, Cells(lines[next]), start, before, num.order);
      rows := rows + [row];
      texts := texts + [Cells(lines[next])];
      next := next + 1;
    }
    TableDone(lines, i, next);
    TableNumbered(Cells(lines[i]), texts, outset, start, num.order);
    block := Table(head, rows);
  }

  /** One turn of the page loop: what starts at line `i`, and the line to go on from. */
  method ParseBlock(lines: seq<string>, i: nat, num: Numbering) returns (block: Option<Block>, next: nat)
    requires i < |lines|
    modifies num
    ensures var st := NextBlock(lines[i..]);
      next == i + st.used && block.Some? == st.raw.Some?
      && num.order == FirstSeen(old(num.order), if st.raw.Some? then BlockIds(Build(st.raw.value)) else [])
      && (block.Some? ==> block.value == StampBlock(Build(st.raw.value), num.order))
  {
    hide FirstSeen, Tree, Ids, Stamp, IsBlank, FenceOf, HeadingOf, IsRule, IsQuote, IsTableDelim, BulletOf,
      Trees, TreeRows, StampCells, StampRows, CellIds, RowIds, ParaStep, QuoteStep, ListStep, TableStep;
    Nothing(num.order);
    var line := lines[i];
    assert lines[i..][0] == line && lines[i..][1..] == lines[i + 1..];
    if IsBlank(line) {
      return None, i + 1;
    }
    var fence := FenceOf(line);
    if fence.Some? {
      var b, n := ParseFence(fence.value, lines, i + 1);
      return Some(b), n;
    }
    var heading := HeadingOf(line);
    if heading.Some? {
      var kids := ParseInline(heading.value.1, num);
      return Some(Heading(heading.value.0, kids)), i + 1;
    }
    if IsRule(line) {
      return Some(Rule), i + 1;
    }
    if IsQuote(line) {
      var b, n := ParseQuote(lines, i, num);
      return Some(b), n;
    }
    if '|' in line && i + 1 < |lines| && IsTableDelim(lines[i + 1]) {
      var b, n := ParseTable(lines, i, num);
      return Some(b), n;
    }
    var bullet := BulletOf(line);
    if bullet.Some? {
      var b, n := ParseList(bullet.value.0, lines, i, num);
      return Some(b), n;
    }
    block, next := ParsePara(lines, i, num);
  }

  lemma BlocksNext(lines: seq<string>, i: nat)
    requires i < |lines|
    ensures var st := NextBlock(lines[i..]);
      Blocks(lines[i..]) == (if st.raw.Some? then [st.raw.value] else []) + Blocks(After(lines, i + st.used))
  {
    hide NextBlock;
    var st := NextBlock(lines[i..]);
    assert After(lines[i..], st.used) == After(lines, i + st.used);
  }

  /** The page loop: the blocks of a page, and the order of its citations. */
  method ParseDoc(md: string) returns (blocks: seq<Block>, order: seq<string>)
    ensures order == Order(md)
    ensures blocks == StampPage(Body(md), order)
  {
    hide FirstSeen, BuildAll, PageIds, StampPage, Build, BlockIds, StampBlock, NextBlock, Blocks, Split, Unix;
    var num := new Numbering();
    var lines := Lines(md);
    blocks := [];
    Nothing([]);
    var i := 0;
    ghost var done: seq<Raw> := [];
    assert lines[0..] == lines;
    while i < |lines|
      invariant done + Blocks(After(lines, i)) == Blocks(lines)
      invariant fresh(num)
      invariant num.order == FirstSeen([], PageIds(BuildAll(done)))
      invariant blocks == StampPage(BuildAll(done), num.order)
      decreases |lines| - i
    {
      BlocksNext(lines, i);
      ghost var before := num.order;
      ghost var st := NextBlock(lines[i..]);
      var block, next := ParseBlock(lines, i, num);
      if block.Some? {
        PageStep(done, st.raw.value, [], before, num.order);
        done := done + [st.raw.value];
        blocks := blocks + [block.value];
      } else {
        Nothing(before);
      }
      i := next;
    }
    NoBlocks();
    assert done + [] == done;
    order := num.order;
  }

  lemma NoBlocks()
    ensures Blocks([]) == []
  {
  }
}
