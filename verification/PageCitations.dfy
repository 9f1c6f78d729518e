/**
 Which markers of a page are cited: all those of its inline texts, unless a code span or a
 link hides one.
 */
module PageCitations {
  import opened Lists
  import opened Marker
  import opened Numbering
  import opened Inline
  import opened InlineParser
  import opened Citations
  import opened Outline
  import opened Page

  /** The inline texts of a block, in reading order. */
  function SourcesOf(raw: Raw): seq<string> {
    match raw
    case RawHeading(_, s) => [s]
    case RawPara(s) => [s]
    case RawQuote(s) => [s]
    case RawList(_, items) => items
    case RawTable(head, rows) => head + Flat(rows)
    case _ => []
  }

  function Sources(raws: seq<Raw>): seq<string> {
    if raws == [] then [] else SourcesOf(raws[0]) + Sources(raws[1..])
  }

  /** The markers of texts, each collapsed, one text after the other. */
  function MarkersOf(ss: seq<string>): seq<string> {
    if ss == [] then [] else Markers(Collapse(ss[0])) + MarkersOf(ss[1..])
  }

  function CitesOf(ss: seq<string>): seq<string> {
    if ss == [] then [] else Ids(Tree(ss[0])) + CitesOf(ss[1..])
  }

  lemma {:induction false} CitesConcat(a: seq<string>, b: seq<string>)
    ensures CitesOf(a + b) == CitesOf(a) + CitesOf(b)
  {
    hide Ids, Tree;
    if a == [] {
      assert a + b == b;
    } else {
      assert (a + b)[1..] == a[1..] + b;
      CitesConcat(a[1..], b);
    }
  }

  lemma {:induction false} CellCites(ss: seq<string>)
    ensures CellIds(Trees(ss)) == CitesOf(ss)
  {
    hide Ids, Tree;
    if ss == [] {
    } else {
      CellCites(ss[1..]);
    }
  }

  lemma {:induction false} RowCites(rows: seq<seq<string>>)
    ensures RowIds(TreeRows(rows)) == CitesOf(Flat(rows))
  {
    hide Trees, CellIds, CitesOf;
    if rows == [] {
      CellCites([]);
      NoCites();
    } else {
      RowCites(rows[1..]);
      CellCites(rows[0]);
      CitesConcat(rows[0], Flat(rows[1..]));
    }
  }

  lemma NoCites()
    ensures CitesOf([]) == []
  {
  }

  lemma OneCites(s: string)
    ensures CitesOf([s]) == Ids(Tree(s))
  {
    hide Ids, Tree;
    assert [s][1..] == [];
  }

  lemma BlockCites(raw: Raw)
    ensures BlockIds(Build(raw)) == CitesOf(SourcesOf(raw))
  {
    hide Ids, Tree, CitesOf, CellIds, RowIds, Trees, TreeRows;
    NoCites();
    match raw {
      case RawHeading(_, s) => OneCites(s);
      case RawPara(s) => OneCites(s);
      case RawQuote(s) => OneCites(s);
      case RawList(_, items) => CellCites(items);
      case RawTable(head, rows) =>
        CellCites(head);
        RowCites(rows);
        CitesConcat(head, Flat(rows));
      case _ =>
    }
  }

  lemma {:induction false} PageCites(raws: seq<Raw>)
    ensures PageIds(BuildAll(raws)) == CitesOf(Sources(raws))
  {
    hide Build, BlockIds, SourcesOf, CitesOf;
    if raws == [] {
      NoCites();
    } else {
      BlockCites(raws[0]);
      PageCites(raws[1..]);
      CitesConcat(SourcesOf(raws[0]), Sources(raws[1..]));
    }
  }

  lemma {:induction false} CitesExactly(ss: seq<string>)
    ensures |CitesOf(ss)| <= |MarkersOf(ss)|
    ensures CitesOf(ss) == MarkersOf(ss) <==> forall s :: s in ss ==> Exposed(s)
  {
    hide Ids, Tree, Markers, Collapse, Exposed;
    if ss == [] {
    } else {
      assert ss == [ss[0]] + ss[1..];
      CitesExactly(ss[1..]);
      TreeCites(ss[0]);
      TwoParts(Ids(Tree(ss[0])), CitesOf(ss[1..]), Markers(Collapse(ss[0])), MarkersOf(ss[1..]));
    }
  }

  /** With no backtick and no `](` in any inline text, however often its footers are collapsed, all
      the markers of a page are cited, in reading order. */
  lemma SightlyPage(md: string)
    requires forall s :: s in Sources(Blocks(Lines(md))) ==> Sightly(Collapse(s))
    ensures Order(md) == FirstSeen([], MarkersOf(Sources(Blocks(Lines(md)))))
  {
    hide Sightly, Exposed, Collapse, Sources, Order, MarkersOf, FirstSeen, Blocks, Lines;
    var ss := Sources(Blocks(Lines(md)));
    PageComplete(md);
    forall s | s in ss
      ensures Exposed(s)
    {
      SightlyExposed(Collapse(s), 0);
      ExposedWhenCollapsed(s);
    }
  }

  lemma ExposedWhenCollapsed(s: string)
    requires ExposedText(Collapse(s)[0..])
    ensures Exposed(s)
  {
    hide ExposedText, Collapse;
    assert Collapse(s)[0..] == Collapse(s);
  }

  /** The citations of a page, in reading order, are exactly the markers of its inline texts, if
      and only if none of those texts hides one in a code span or a link; and then its citation
      order is that of the markers. */
  lemma PageComplete(md: string)
    ensures var ss := Sources(Blocks(Lines(md)));
      && (PageIds(Body(md)) == MarkersOf(ss) <==> forall s :: s in ss ==> Exposed(s))
      && ((forall s :: s in ss ==> Exposed(s)) ==> Order(md) == FirstSeen([], MarkersOf(ss)))
  {
    hide Blocks, Lines, BuildAll, PageIds, CitesOf, MarkersOf, Sources, Exposed;
    PageCites(Blocks(Lines(md)));
    CitesExactly(Sources(Blocks(Lines(md))));
  }
}
