/**
 What the reader derives from a parsed page and its resolved citations: the rail,
 the "read with care" banner, the rim of each block and the list of unresolved citations.
 */
module Reader {
  import opened Lists
  import opened Numbering
  import opened Inline
  import opened InlineParser
  import opened Options
  import opened Page
  import opened PageOrder

  datatype Lifecycle = Shipped | InFlight | Proposed

  /** A citation as the API sends it, and with its lifecycle narrowed. */
  datatype Citation = Citation(memoryId: string, lifecycle: string, content: string)
  datatype Cited = Cited(memoryId: string, lifecycle: Lifecycle, content: string)

  /** A rail entry. */
  datatype Entry = Entry(n: nat, id: string, mem: Option<Cited>)

  function AsLifecycle(s: string): Lifecycle {
    if s == "in_flight" then InFlight else if s == "proposed" then Proposed else Shipped
  }

  function Narrow(c: Citation): Cited {
    Cited(c.memoryId, AsLifecycle(c.lifecycle), c.content)
  }

  /** `citations.map((c) => c.memory_id)`. */
  function MemoryIds(cs: seq<Citation>): (r: seq<string>)
    ensures |r| == |cs|
    ensures forall k :: 0 <= k < |cs| ==> r[k] == cs[k].memoryId
  {
    Map((c: Citation) => c.memoryId, cs)
  }

  type Memories = map<string, Cited>

  /** The resolved memories by lower-cased id; of two with the same id the later one counts. */
  function ById(cs: seq<Citation>, lower: string -> string): (m: Memories)
    ensures m.Keys == set c | c in cs :: lower(c.memoryId)
  {
    if cs == [] then map[]
    else
      var k := |cs| - 1;
      assert cs == cs[..k] + [cs[k]];
      ById(cs[..k], lower)[lower(cs[k].memoryId) := Narrow(cs[k])]
  }

  function Lookup(byId: Memories, id: string): Option<Cited> {
    if id in byId then Some(byId[id]) else None
  }

  /** The rail. */
  function Used(order: seq<string>, byId: Memories): (r: seq<Entry>)
    ensures |r| == |order|
  {
    seq(|order|, k requires 0 <= k < |order| => Entry(k + 1, order[k], Lookup(byId, order[k])))
  }

  predicate IsUnshipped(e: Entry) {
    e.mem.Some? && e.mem.value.lifecycle != Shipped
  }

  predicate IsUnresolved(e: Entry) {
    e.mem.None?
  }

  predicate IsResolved(e: Entry) {
    e.mem.Some?
  }

  /** The lifecycles of the resolved citations of a run of nodes, in reading order. */
  function Lifecycles(ns: seq<Node>, byId: Memories): seq<Lifecycle> {
    if ns == [] then [] else NodeLifecycles(ns[0], byId) + Lifecycles(ns[1..], byId)
  }

  function NodeLifecycles(n: Node, byId: Memories): seq<Lifecycle> {
    match n
    case Cite(id, _) => if id in byId then [byId[id].lifecycle] else []
    case Strong(kids) => Lifecycles(kids, byId)
    case Em(kids) => Lifecycles(kids, byId)
    case Link(_, kids) => Lifecycles(kids, byId)
    case _ => []
  }

  function CellLifecycles(cells: seq<Cell>, byId: Memories): seq<Lifecycle> {
    if cells == [] then [] else Lifecycles(cells[0], byId) + CellLifecycles(cells[1..], byId)
  }

  function BlockLifecycles(b: Block, byId: Memories): seq<Lifecycle> {
    match b
    case Para(kids) => Lifecycles(kids, byId)
    case Quote(kids) => Lifecycles(kids, byId)
    case Heading(_, kids) => Lifecycles(kids, byId)
    case List(_, items) => CellLifecycles(items, byId)
    case Table(head, rows) => CellLifecycles(head + Flat(rows), byId)
    case _ => []
  }

  /** The lifecycle a block is rimmed with: the first of its lifecycles that is not shipped. */
  function Hot(b: Block, byId: Memories): Option<Lifecycle> {
    HotOf(BlockLifecycles(b, byId))
  }

  function HotOf(ls: seq<Lifecycle>): Option<Lifecycle> {
    var hot := Filter(l => l != Shipped, ls);
    if hot == [] then None else Some(hot[0])
  }

  /** The banner is shown when something is unshipped or unresolved. */
  predicate ReadWithCare(used: seq<Entry>) {
    Filter(IsUnshipped, used) != [] || Filter(IsUnresolved, used) != []
  }

  /** Cited ids that are not among the resolved ones. */
  function UnresolvedCitations(md: string, resolved: seq<string>, lower: string -> string): seq<string> {
    var have := set s | s in resolved :: lower(s);
    Filter(id => id !in have, Order(md))
  }

  // ---- the walk over blocks sees the ids of blocks ------------------------------------

  function IdLifecycles(ids: seq<string>, byId: Memories): seq<Lifecycle> {
    if ids == [] then []
    else (if ids[0] in byId then [byId[ids[0]].lifecycle] else []) + IdLifecycles(ids[1..], byId)
  }

  lemma {:induction false} IdLifecyclesConcat(a: seq<string>, b: seq<string>, byId: Memories)
    ensures IdLifecycles(a + b, byId) == IdLifecycles(a, byId) + IdLifecycles(b, byId)
  {
    if a == [] {
      assert a + b == b;
    } else {
      assert (a + b)[1..] == a[1..] + b;
      IdLifecyclesConcat(a[1..], b, byId);
    }
  }

  lemma {:induction false} LifecyclesOfIds(ns: seq<Node>, byId: Memories)
    ensures Lifecycles(ns, byId) == IdLifecycles(Ids(ns), byId)
  {
    if ns == [] {
    } else {
      IdLifecyclesConcat(IdsOfNode(ns[0]), Ids(ns[1..]), byId);
      LifecyclesOfIds(ns[1..], byId);
      match ns[0]
      case Cite(id, _) => assert [id][1..] == [];
      case Strong(kids) => LifecyclesOfIds(kids, byId);
      case Em(kids) => LifecyclesOfIds(kids, byId);
      case Link(_, kids) => LifecyclesOfIds(kids, byId);
      case _ =>
    }
  }

  lemma {:induction false} LifecyclesOfCells(cells: seq<Cell>, byId: Memories)
    ensures CellLifecycles(cells, byId) == IdLifecycles(CellIds(cells), byId)
  {
    if cells == [] {
    } else {
      IdLifecyclesConcat(Ids(cells[0]), CellIds(cells[1..]), byId);
      LifecyclesOfIds(cells[0], byId);
      LifecyclesOfCells(cells[1..], byId);
    }
  }

  lemma {:induction false} CellIdsConcat(a: seq<Cell>, b: seq<Cell>)
    ensures CellIds(a + b) == CellIds(a) + CellIds(b)
  {
    if a == [] {
      assert a + b == b;
    } else {
      assert (a + b)[1..] == a[1..] + b;
      CellIdsConcat(a[1..], b);
    }
  }

  lemma {:induction false} FlatIds(rows: seq<seq<Cell>>)
    ensures CellIds(Flat(rows)) == RowIds(rows)
  {
    if rows == [] {
    } else {
      CellIdsConcat(rows[0], Flat(rows[1..]));
      FlatIds(rows[1..]);
    }
  }

  /** The lifecycles of a block are those of the ids it cites, in reading order. */
  lemma LifecyclesOfBlock(b: Block, byId: Memories)
    ensures BlockLifecycles(b, byId) == IdLifecycles(BlockIds(b), byId)
  {
    hide Ids, Lifecycles, CellIds, CellLifecycles, RowIds, Flat, IdLifecycles;
    match b {
      case Para(kids) => LifecyclesOfIds(kids, byId);
      case Quote(kids) => LifecyclesOfIds(kids, byId);
      case Heading(_, kids) => LifecyclesOfIds(kids, byId);
      case List(_, items) => LifecyclesOfCells(items, byId);
      case Table(head, rows) =>
        FlatIds(rows);
        CellIdsConcat(head, Flat(rows));
        LifecyclesOfCells(head + Flat(rows), byId);
      case _ => NoIds(byId);
    }
  }

  lemma NoIds(byId: Memories)
    ensures IdLifecycles([], byId) == []
  {
  }

  lemma {:induction false} LifecycleMet(ids: seq<string>, byId: Memories, l: Lifecycle)
    ensures l in IdLifecycles(ids, byId) <==> exists id :: id in ids && id in byId && byId[id].lifecycle == l
  {
    if ids == [] {
    } else {
      LifecycleMet(ids[1..], byId, l);
    }
  }

  ghost predicate CitesUnshipped(ids: seq<string>, byId: Memories) {
    exists id :: id in ids && id in byId && byId[id].lifecycle != Shipped
  }

  lemma HotExactly(b: Block, byId: Memories)
    ensures Hot(b, byId).Some? <==> CitesUnshipped(BlockIds(b), byId)
    ensures Hot(b, byId).Some? ==> Hot(b, byId).value != Shipped
  {
    hide IdLifecycles, BlockLifecycles, BlockIds;
    var ids := BlockIds(b);
    var all := BlockLifecycles(b, byId);
    LifecyclesOfBlock(b, byId);
    LifecycleMet(ids, byId, InFlight);
    LifecycleMet(ids, byId, Proposed);
    var hot := Filter(l => l != Shipped, all);
    assert hot != [] ==> hot[0] in hot;
    assert InFlight in all ==> InFlight in hot;
    assert Proposed in all ==> Proposed in hot;
  }

  lemma {:induction false} PageIdsMet(bs: seq<Block>, id: string)
    ensures id in PageIds(bs) <==> exists k :: 0 <= k < |bs| && id in BlockIds(bs[k])
  {
    hide BlockIds;
    if bs == [] {
    } else {
      PageIdsMet(bs[1..], id);
      assert forall k :: 1 <= k < |bs| ==> bs[k] == bs[1..][k - 1];
      if k :| 0 <= k < |bs| && id in BlockIds(bs[k]) {
        if k > 0 {
          assert id in BlockIds(bs[1..][k - 1]);
        }
      }
      if id in PageIds(bs[1..]) {
        var k :| 0 <= k < |bs[1..]| && id in BlockIds(bs[1..][k]);
        assert id in BlockIds(bs[k + 1]);
      }
    }
  }

  // ---- in terms of the citations as they were sent ----------------------------------------

  /** Of the citations with an id, the last one counts. */
  function LastCitation(cs: seq<Citation>, lower: string -> string, id: string): (c: Option<Citation>)
    ensures c.Some? ==> c.value in cs && lower(c.value.memoryId) == id
    ensures c.None? <==> forall k :: 0 <= k < |cs| ==> lower(cs[k].memoryId) != id
  {
    if cs == [] then None
    else if lower(cs[|cs| - 1].memoryId) == id then Some(cs[|cs| - 1])
    else LastCitation(cs[..|cs| - 1], lower, id)
  }

  ghost predicate Unresolved(cs: seq<Citation>, lower: string -> string, id: string) {
    LastCitation(cs, lower, id).None?
  }

  /** An id whose memory is decided but not shipped, or not even decided. */
  predicate Unshipped(cs: seq<Citation>, lower: string -> string, id: string) {
    var c := LastCitation(cs, lower, id);
    c.Some? && (c.value.lifecycle == "in_flight" || c.value.lifecycle == "proposed")
  }

  lemma NarrowExactly(c: Citation)
    ensures Narrow(c).memoryId == c.memoryId && Narrow(c).content == c.content
    ensures Narrow(c).lifecycle == InFlight <==> c.lifecycle == "in_flight"
    ensures Narrow(c).lifecycle == Proposed <==> c.lifecycle == "proposed"
  {
  }

  /** The memory that an id resolves to is that of the last citation with it. */
  lemma {:induction false} ByIdExactly(cs: seq<Citation>, lower: string -> string, id: string)
    ensures match LastCitation(cs, lower, id) {
        case None => Lookup(ById(cs, lower), id) == None
        case Some(c) => Lookup(ById(cs, lower), id) == Some(Narrow(c))
      }
  {
    hide Narrow;
    if cs == [] {
    } else {
      ByIdExactly(cs[..|cs| - 1], lower, id);
    }
  }

  /** An id is unshipped in the table exactly when its last citation says so. */
  lemma UnshippedExactly(cs: seq<Citation>, lower: string -> string, id: string)
    ensures Unshipped(cs, lower, id) <==> id in ById(cs, lower) && ById(cs, lower)[id].lifecycle != Shipped
    ensures Unresolved(cs, lower, id) <==> id !in ById(cs, lower)
  {
    hide ById, Narrow, LastCitation;
    ByIdExactly(cs, lower, id);
    if LastCitation(cs, lower, id).Some? {
      NarrowExactly(LastCitation(cs, lower, id).value);
    }
  }

  /** The citation of the first id that is unshipped. */
  function FirstUnshipped(ids: seq<string>, cs: seq<Citation>, lower: string -> string): Option<Citation> {
    if ids == [] then None
    else if Unshipped(cs, lower, ids[0]) then LastCitation(cs, lower, ids[0])
    else FirstUnshipped(ids[1..], cs, lower)
  }

  lemma HotMore(first: seq<Lifecycle>, rest: seq<Lifecycle>)
    requires |first| <= 1
    ensures HotOf(first + rest) == if first != [] && first[0] != Shipped then Some(first[0]) else HotOf(rest)
  {
    if first == [] {
      assert first + rest == rest;
    } else {
      assert (first + rest)[1..] == rest;
    }
  }

  /** How a lifecycle that is not shipped is spelled. */
  function Spelled(lifecycle: string): Lifecycle {
    if lifecycle == "in_flight" then InFlight else Proposed
  }

  /** The first of a run of ids that is unshipped decides the rim. */
  lemma {:induction false} FirstHot(ids: seq<string>, cs: seq<Citation>, lower: string -> string)
    ensures HotOf(IdLifecycles(ids, ById(cs, lower))) ==
      match FirstUnshipped(ids, cs, lower) {
        case None => None
        case Some(c) => Some(Spelled(c.lifecycle))
      }
  {
    hide ById, HotOf, Narrow, LastCitation;
    var byId := ById(cs, lower);
    if ids == [] {
      HotMore([], []);
      NothingHot();
    } else {
      FirstHot(ids[1..], cs, lower);
      var first := if ids[0] in byId then [byId[ids[0]].lifecycle] else [];
      HotMore(first, IdLifecycles(ids[1..], byId));
      ByIdExactly(cs, lower, ids[0]);
      UnshippedExactly(cs, lower, ids[0]);
      if LastCitation(cs, lower, ids[0]).Some? {
        NarrowExactly(LastCitation(cs, lower, ids[0]).value);
      }
    }
  }

  lemma NothingHot()
    ensures HotOf([]) == None
  {
  }

  /** A block is rimmed with the lifecycle of the first memory it cites that is not shipped, as its
      last citation was sent, and not rimmed when there is none. */
  lemma RimExactly(b: Block, cs: seq<Citation>, lower: string -> string)
    ensures Hot(b, ById(cs, lower)) ==
      match FirstUnshipped(BlockIds(b), cs, lower) {
        case None => None
        case Some(c) => Some(Spelled(c.lifecycle))
      }
    ensures Hot(b, ById(cs, lower)).Some? <==> exists id :: id in BlockIds(b) && Unshipped(cs, lower, id)
  {
    hide ById, BlockIds, BlockLifecycles, IdLifecycles, Unshipped, FirstUnshipped;
    var byId := ById(cs, lower);
    forall id
      ensures Unshipped(cs, lower, id) <==> id in byId && byId[id].lifecycle != Shipped
    {
      UnshippedExactly(cs, lower, id);
    }
    HotExactly(b, byId);
    LifecyclesOfBlock(b, byId);
    FirstHot(BlockIds(b), cs, lower);
    hide Filter;
    assert Hot(b, byId) == HotOf(BlockLifecycles(b, byId));
  }

  // ---- the three views agree ----------------------------------------------------------

  /** A block is rimmed exactly when it cites the memory of an unshipped rail entry. */
  lemma RimMatchesRail(blocks: seq<Block>, order: seq<string>, byId: Memories, k: nat)
    requires WellNumbered(blocks, order) && k < |blocks|
    ensures Hot(blocks[k], byId).Some? <==>
            exists e :: e in Filter(IsUnshipped, Used(order, byId)) && e.id in BlockIds(blocks[k])
  {
    hide Hot, BlockIds, PageIds, NumberedBlock, Find;
    HotExactly(blocks[k], byId);
    var ids := BlockIds(blocks[k]);
    var used := Used(order, byId);
    if CitesUnshipped(ids, byId) {
      var id :| id in ids && id in byId && byId[id].lifecycle != Shipped;
      PageIdsMet(blocks, id);
      var n :| 0 <= n < |order| && order[n] == id;
      assert used[n] in used && IsUnshipped(used[n]);
    }
  }

  /** The page has an unshipped rail entry exactly when some block is rimmed. */
  lemma BannerMatchesRims(blocks: seq<Block>, order: seq<string>, byId: Memories)
    requires WellNumbered(blocks, order)
    ensures Filter(IsUnshipped, Used(order, byId)) != [] <==>
            exists k :: 0 <= k < |blocks| && Hot(blocks[k], byId).Some?
  {
    hide Hot, BlockIds, PageIds, NumberedBlock, Find;
    var used := Used(order, byId);
    var unshipped := Filter(IsUnshipped, used);
    if unshipped != [] {
      var e := unshipped[0];
      assert e in used;
      assert e.id in order;
      PageIdsMet(blocks, e.id);
      var k :| 0 <= k < |blocks| && e.id in BlockIds(blocks[k]);
      RimMatchesRail(blocks, order, byId, k);
      assert e in unshipped;
    }
    if k :| 0 <= k < |blocks| && Hot(blocks[k], byId).Some? {
      RimMatchesRail(blocks, order, byId, k);
    }
  }

  /** The page asks to be read with care exactly when some block is rimmed or some citation is
      unresolved. */
  lemma ReadWithCareExactly(md: string, cs: seq<Citation>, lower: string -> string)
    ensures ReadWithCare(Used(Order(md), ById(cs, lower))) <==>
      exists id :: id in Order(md) && (Unshipped(cs, lower, id) || Unresolved(cs, lower, id))
    ensures var byId := ById(cs, lower);
      var blocks := StampPage(Body(md), Order(md));
      ReadWithCare(Used(Order(md), byId)) <==>
        || (exists k :: 0 <= k < |blocks| && Hot(blocks[k], byId).Some?)
        || UnresolvedCitations(md, MemoryIds(cs), lower) != []
  {
    hide ById, Hot, Order, Body, StampPage, WellNumbered, Used, UnresolvedCitations, Filter, MemoryIds;
    var byId := ById(cs, lower);
    ParsedWellNumbered(md);
    BannerMatchesRims(StampPage(Body(md), Order(md)), Order(md), byId);
    UnresolvedAgree(md, cs, lower);
    NoEntries(Filter(IsUnresolved, Used(Order(md), byId)));
    CareExactly(Order(md), cs, lower);
  }

  /** What is asked to be read with care, in terms of the citations as they were sent. */
  lemma CareExactly(order: seq<string>, cs: seq<Citation>, lower: string -> string)
    ensures ReadWithCare(Used(order, ById(cs, lower))) <==>
      exists id :: id in order && (Unshipped(cs, lower, id) || Unresolved(cs, lower, id))
  {
    hide ById, Unshipped, Unresolved;
    var byId := ById(cs, lower);
    var used := Used(order, byId);
    forall id
      ensures Unshipped(cs, lower, id) <==> id in byId && byId[id].lifecycle != Shipped
      ensures Unresolved(cs, lower, id) <==> id !in byId
    {
      UnshippedExactly(cs, lower, id);
    }
    if ReadWithCare(used) {
      var es := if Filter(IsUnshipped, used) != [] then Filter(IsUnshipped, used) else Filter(IsUnresolved, used);
      assert es[0] in es;
      var k :| 0 <= k < |used| && used[k] == es[0];
      assert order[k] in order;
    }
    if id :| id in order && (Unshipped(cs, lower, id) || Unresolved(cs, lower, id)) {
      var k :| 0 <= k < |order| && order[k] == id;
      assert used[k] in used;
      assert used[k] in Filter(IsUnshipped, used) || used[k] in Filter(IsUnresolved, used);
    }
  }

  lemma NoEntries(es: seq<Entry>)
    ensures EntryIds(es) == [] <==> es == []
  {
  }

  /** Every marker's number leads to the rail entry of its own memory. */
  ghost predicate MarkersMatch(ns: seq<Node>, used: seq<Entry>, byId: Memories) {
    ns == [] || (MarkerMatches(ns[0], used, byId) && MarkersMatch(ns[1..], used, byId))
  }

  ghost predicate MarkerMatches(n: Node, used: seq<Entry>, byId: Memories) {
    match n
    case Cite(id, k) => 1 <= k <= |used| && used[k - 1] == Entry(k, id, Lookup(byId, id))
    case Strong(kids) => MarkersMatch(kids, used, byId)
    case Em(kids) => MarkersMatch(kids, used, byId)
    case Link(_, kids) => MarkersMatch(kids, used, byId)
    case _ => true
  }

  lemma {:induction false} NumbersMatchRail(ns: seq<Node>, order: seq<string>, byId: Memories)
    requires Numbered(ns, order)
    ensures MarkersMatch(ns, Used(order, byId), byId)
  {
    if ns == [] {
    } else {
      NumbersMatchRail(ns[1..], order, byId);
      match ns[0]
      case Strong(kids) => NumbersMatchRail(kids, order, byId);
      case Em(kids) => NumbersMatchRail(kids, order, byId);
      case Link(_, kids) => NumbersMatchRail(kids, order, byId);
      case _ =>
    }
  }

  /** The cells of a block, in reading order. */
  function BlockCells(b: Block): seq<Cell> {
    match b
    case Heading(_, kids) => [kids]
    case Para(kids) => [kids]
    case Quote(kids) => [kids]
    case List(_, items) => items
    case Table(head, rows) => head + Flat(rows)
    case _ => []
  }

  /** They hold all that the block cites. */
  lemma CellsCite(b: Block)
    ensures CellIds(BlockCells(b)) == BlockIds(b)
  {
    hide Ids;
    match b {
      case Heading(_, kids) => assert [kids][1..] == [];
      case Para(kids) => assert [kids][1..] == [];
      case Quote(kids) => assert [kids][1..] == [];
      case Table(head, rows) =>
        CellIdsConcat(head, Flat(rows));
        FlatIds(rows);
      case _ =>
    }
  }

  lemma {:induction false} FlatNumbered(rows: seq<seq<Cell>>, order: seq<string>)
    requires forall k :: 0 <= k < |rows| ==> NumberedCells(rows[k], order)
    ensures forall cell :: cell in Flat(rows) ==> Numbered(cell, order)
  {
    if rows == [] {
    } else {
      hide Numbered;
      FlatNumbered(rows[1..], order);
      assert NumberedCells(rows[0], order);
    }
  }

  /** On every parsed page, every marker of every block shows the number of the rail entry of its
      own memory. */
  lemma PageMatchesRail(md: string, byId: Memories)
    ensures var order := Order(md);
      var blocks := StampPage(Body(md), order);
      forall k, cell :: 0 <= k < |blocks| && cell in BlockCells(blocks[k]) ==>
        MarkersMatch(cell, Used(order, byId), byId)
  {
    hide Numbered, MarkersMatch, Order, Body, StampPage, PageIds, Find, Used, Flat;
    var order := Order(md);
    var blocks := StampPage(Body(md), order);
    ParsedWellNumbered(md);
    forall k, cell | 0 <= k < |blocks| && cell in BlockCells(blocks[k])
      ensures MarkersMatch(cell, Used(order, byId), byId)
    {
      assert NumberedBlock(blocks[k], order);
      if blocks[k].Table? {
        FlatNumbered(blocks[k].rows, order);
      }
      NumbersMatchRail(cell, order, byId);
    }
  }

  function EntryIds(es: seq<Entry>): seq<string> {
    if es == [] then [] else [es[0].id] + EntryIds(es[1..])
  }

  lemma {:induction false} FilterAgrees(es: seq<Entry>, ids: seq<string>, p: Entry -> bool, q: string -> bool)
    requires |es| == |ids| && forall k :: 0 <= k < |es| ==> es[k].id == ids[k] && (p(es[k]) <==> q(ids[k]))
    ensures EntryIds(Filter(p, es)) == Filter(q, ids)
  {
    if es == [] {
    } else {
      FilterAgrees(es[1..], ids[1..], p, q);
      var rest := Filter(p, es[1..]);
      assert es[0].id == ids[0];
      assert ([es[0]] + rest)[1..] == rest;
      assert Filter(p, es) == (if p(es[0]) then [es[0]] else []) + rest;
      assert [] + rest == rest;
    }
  }

  /** The rail's unresolved entries are the unresolved citations, in the same order, and together
      with the resolved ones they make up the citation order. */
  lemma UnresolvedAgree(md: string, cs: seq<Citation>, lower: string -> string)
    ensures var used := Used(Order(md), ById(cs, lower));
      && EntryIds(Filter(IsUnresolved, used)) == UnresolvedCitations(md, MemoryIds(cs), lower)
      && EntryIds(Filter(IsResolved, used)) == Filter(id => id in ById(cs, lower), Order(md))
      && |Filter(IsUnresolved, used)| + |Filter(IsResolved, used)| == |Order(md)|
  {
    hide Order;
    var order := Order(md);
    var byId := ById(cs, lower);
    var used := Used(order, byId);
    var resolved := MemoryIds(cs);
    SameKeys(cs, lower, resolved);
    var have := set s | s in resolved :: lower(s);
    FilterAgrees(used, order, IsUnresolved, id => id !in have);
    FilterAgrees(used, order, IsResolved, id => id in byId);
    FilterSplits(IsUnresolved, IsResolved, used);
  }

  /** What is unresolved: the cited ids without a citation of theirs. */
  lemma UnresolvedExactly(md: string, cs: seq<Citation>, lower: string -> string, id: string)
    ensures id in UnresolvedCitations(md, MemoryIds(cs), lower) <==> id in Order(md) && Unresolved(cs, lower, id)
  {
    hide Order;
    var resolved := MemoryIds(cs);
    var have := set s | s in resolved :: lower(s);
    forall k | 0 <= k < |cs|
      ensures lower(cs[k].memoryId) in have
    {
      assert resolved[k] in resolved;
    }
  }

  lemma SameKeys(cs: seq<Citation>, lower: string -> string, resolved: seq<string>)
    requires |resolved| == |cs| && forall k :: 0 <= k < |cs| ==> resolved[k] == cs[k].memoryId
    ensures (set s | s in resolved :: lower(s)) == ById(cs, lower).Keys
  {
    hide ById;
    var have := set s | s in resolved :: lower(s);
    forall c | c in cs
      ensures lower(c.memoryId) in have
    {
      var k :| 0 <= k < |cs| && cs[k] == c;
      assert resolved[k] in resolved;
    }
    forall s | s in resolved
      ensures lower(s) in ById(cs, lower).Keys
    {
      var k :| 0 <= k < |cs| && resolved[k] == s;
      assert cs[k] in cs;
    }
  }
}
