/**
 The citation numbers of a page: every marker's number leads to its own memory, the order
 is that of first appearance, and a number once given never changes.
 */
module PageOrder {
  import opened Numbering
  import opened Inline
  import opened InlineParser
  import opened Page

  /** Every citation, at every depth, carries the place of its own id in the order. */
  ghost predicate Numbered(ns: seq<Node>, order: seq<string>) {
    ns == [] || (NumberedNode(ns[0], order) && Numbered(ns[1..], order))
  }

  ghost predicate NumberedNode(n: Node, order: seq<string>) {
    match n
    case Cite(id, k) => 1 <= k <= |order| && order[k - 1] == id
    case Strong(kids) => Numbered(kids, order)
    case Em(kids) => Numbered(kids, order)
    case Link(_, kids) => Numbered(kids, order)
    case _ => true
  }

  ghost predicate NumberedCells(cells: seq<Cell>, order: seq<string>) {
    forall k :: 0 <= k < |cells| ==> Numbered(cells[k], order)
  }

  ghost predicate NumberedBlock(b: Block, order: seq<string>) {
    match b
    case Heading(_, kids) => Numbered(kids, order)
    case Para(kids) => Numbered(kids, order)
    case Quote(kids) => Numbered(kids, order)
    case List(_, items) => NumberedCells(items, order)
    case Table(head, rows) =>
      NumberedCells(head, order) && forall k :: 0 <= k < |rows| ==> NumberedCells(rows[k], order)
    case _ => true
  }

  lemma {:induction false} StampNumbers(ns: seq<Node>, order: seq<string>)
    requires forall id :: id in Ids(ns) ==> id in order
    ensures Numbered(Stamp(ns, order), order)
    ensures Ids(Stamp(ns, order)) == Ids(ns)
  {
    if ns == [] {
    } else {
      hide IdsOfNode, StampNode, NumberedNode;
      assert forall id :: id in IdsOfNode(ns[0]) || id in Ids(ns[1..]) ==> id in Ids(ns);
      StampNumbers(ns[1..], order);
      StampNodeNumbers(ns[0], order);
    }
  }

  lemma {:induction false} StampNodeNumbers(n: Node, order: seq<string>)
    requires forall id :: id in IdsOfNode(n) ==> id in order
    ensures NumberedNode(StampNode(n, order), order)
    ensures IdsOfNode(StampNode(n, order)) == IdsOfNode(n)
  {
    hide Ids, Stamp, Numbered;
    match n
    case Cite(id, _) =>
      assert id in IdsOfNode(n);
    case Strong(kids) => StampNumbers(kids, order);
    case Em(kids) => StampNumbers(kids, order);
    case Link(_, kids) => StampNumbers(kids, order);
    case _ =>
  }

  lemma {:induction false} StampCellsNumbers(cells: seq<Cell>, order: seq<string>)
    requires forall id :: id in CellIds(cells) ==> id in order
    ensures NumberedCells(StampCells(cells, order), order)
    ensures CellIds(StampCells(cells, order)) == CellIds(cells)
  {
    if cells == [] {
    } else {
      StampNumbers(cells[0], order);
      StampCellsNumbers(cells[1..], order);
    }
  }

  lemma {:induction false} StampRowsNumbers(rows: seq<seq<Cell>>, order: seq<string>)
    requires forall id :: id in RowIds(rows) ==> id in order
    ensures forall k :: 0 <= k < |rows| ==> NumberedCells(StampRows(rows, order)[k], order)
    ensures RowIds(StampRows(rows, order)) == RowIds(rows)
  {
    if rows == [] {
    } else {
      StampCellsNumbers(rows[0], order);
      StampRowsNumbers(rows[1..], order);
    }
  }

  lemma StampBlockNumbers(b: Block, order: seq<string>)
    requires forall id :: id in BlockIds(b) ==> id in order
    ensures NumberedBlock(StampBlock(b, order), order)
    ensures BlockIds(StampBlock(b, order)) == BlockIds(b)
  {
    match b {
      case Heading(_, kids) => StampNumbers(kids, order);
      case Para(kids) => StampNumbers(kids, order);
      case Quote(kids) => StampNumbers(kids, order);
      case List(_, items) => StampCellsNumbers(items, order);
      case Table(head, rows) =>
        StampCellsNumbers(head, order);
        StampRowsNumbers(rows, order);
      case _ =>
    }
  }

  lemma {:induction false} StampPageNumbers(bs: seq<Block>, order: seq<string>)
    requires forall id :: id in PageIds(bs) ==> id in order
    ensures forall k :: 0 <= k < |bs| ==> NumberedBlock(StampPage(bs, order)[k], order)
    ensures PageIds(StampPage(bs, order)) == PageIds(bs)
  {
    if bs == [] {
    } else {
      hide BlockIds, NumberedBlock, StampBlock;
      StampBlockNumbers(bs[0], order);
      StampPageNumbers(bs[1..], order);
    }
  }

  /** What a parsed page promises about its citation order: the ids met when reading the blocks
      from first to last are in it and no others, each once, in the order in which they are
      first met; and every citation's number is the place of its own id. */
  ghost predicate WellNumbered(blocks: seq<Block>, order: seq<string>) {
    var ids := PageIds(blocks);
    && Distinct(order)
    && (forall id :: id in order <==> id in ids)
    && (forall a, b :: 0 <= a < b < |order| ==> Find(ids, order[a]) < Find(ids, order[b]))
    && (forall k :: 0 <= k < |blocks| ==> NumberedBlock(blocks[k], order))
  }

  lemma ParsedWellNumbered(md: string)
    ensures WellNumbered(StampPage(Body(md), Order(md)), Order(md))
  {
    hide Body, PageIds, NumberedBlock, FirstSeen, StampPage;
    var bs, order := Body(md), Order(md);
    var ids := PageIds(bs);
    FirstSeenDistinct([], ids);
    StampPageNumbers(bs, order);
    forall a, b | 0 <= a < b < |order|
      ensures Find(ids, order[a]) < Find(ids, order[b])
    {
      FirstSeenSorted(ids, a, b);
    }
  }

  /** These promises leave no choice: two orders that keep them for the same blocks are equal. */
  lemma WellNumberedUnique(blocks: seq<Block>, a: seq<string>, b: seq<string>)
    requires WellNumbered(blocks, a) && WellNumbered(blocks, b)
    ensures a == b
  {
    hide PageIds, NumberedBlock;
    SortedUnique(PageIds(blocks), a, b, 0);
  }

  lemma {:induction false} SortedUnique(ids: seq<string>, a: seq<string>, b: seq<string>, n: nat)
    requires Distinct(a) && Distinct(b)
    requires (forall id :: id in a <==> id in ids) && (forall id :: id in b <==> id in ids)
    requires forall i, j :: 0 <= i < j < |a| ==> Find(ids, a[i]) < Find(ids, a[j])
    requires forall i, j :: 0 <= i < j < |b| ==> Find(ids, b[i]) < Find(ids, b[j])
    requires n <= |a| && n <= |b| && a[..n] == b[..n]
    ensures a == b
    decreases |a| - n
  {
    assert forall k :: 0 <= k < n ==> a[k] == a[..n][k] == b[..n][k] == b[k];
    if n < |a| {
      var j := IndexIn(b, a[n]);
      var i := IndexIn(a, b[n]);
      assert i >= n && j >= n;
      assert a[n] == b[n];
      assert a[..n + 1] == a[..n] + [a[n]] && b[..n + 1] == b[..n] + [b[n]];
      SortedUnique(ids, a, b, n + 1);
    } else if n < |b| {
      var i := IndexIn(a, b[n]);
      assert false;
    }
  }

  lemma IndexIn(s: seq<string>, id: string) returns (k: nat)
    requires id in s
    ensures k < |s| && s[k] == id
  {
    k :| k < |s| && s[k] == id;
  }

  lemma {:induction false} PageIdsConcat(a: seq<Block>, b: seq<Block>)
    ensures PageIds(a + b) == PageIds(a) + PageIds(b)
  {
    if a == [] {
      assert a + b == b;
    } else {
      assert (a + b)[1..] == a[1..] + b;
      PageIdsConcat(a[1..], b);
    }
  }

  lemma {:induction false} StampPageConcat(a: seq<Block>, b: seq<Block>, order: seq<string>)
    ensures StampPage(a + b, order) == StampPage(a, order) + StampPage(b, order)
  {
    if a == [] {
      assert a + b == b;
    } else {
      assert (a + b)[1..] == a[1..] + b;
      StampPageConcat(a[1..], b, order);
    }
  }

  /** Reading on only appends: after the first `k` blocks the order is a prefix of the final one,
      and those blocks, numbered at that point, are the first `k` blocks of the result. */
  lemma OrderOnlyGrows(md: string, k: nat)
    requires k <= |Body(md)|
    ensures var early := FirstSeen([], PageIds(Body(md)[..k]));
      && early <= Order(md)
      && StampPage(Body(md)[..k], early) == StampPage(Body(md), Order(md))[..k]
  {
    hide Body, PageIds, FirstSeen, StampPage;
    var bs, order := Body(md), Order(md);
    var early := FirstSeen([], PageIds(bs[..k]));
    assert bs == bs[..k] + bs[k..];
    PageIdsConcat(bs[..k], bs[k..]);
    FirstSeenConcat([], PageIds(bs[..k]), PageIds(bs[k..]));
    PageStays(bs[..k], early, order);
    StampPageConcat(bs[..k], bs[k..], order);
  }
}
