/**
 The wiki directory: space facets, tab counts, filtering and paging, and the page tree
 that groups the same corpus a second way.
 */
module Directory {
  import opened Text
  import opened Options
  import opened Lists
  import opened Sorting

  datatype Doc = Doc(id: string, slug: string, title: string, pendingReview: bool, dirty: bool)

  const UNFILED := "unfiled"

  /** The first segment of a slug, or all of it when it has no slash. */
  function SpaceKey(slug: string): string {
    var at := IndexOf(slug, "/", 0);
    if at < 0 then slug else slug[..at]
  }

  /** `key` is the part of a slug before its first slash. */
  ghost predicate IsSpaceOf(key: string, slug: string) {
    '/' !in key && (key == slug || key + "/" <= slug)
  }

  lemma SpaceKeyExactly(slug: string, key: string)
    ensures key == SpaceKey(slug) <==> IsSpaceOf(key, slug)
  {
    hide IndexOf;
    var at := IndexOf(slug, "/", 0);
    var own := SpaceKey(slug);
    forall k | 0 <= k < |own|
      ensures slug[k] != '/'
    {
      assert slug[k..k + 1] == [slug[k]];
      assert !OccursAt(slug, "/", k);
    }
    if at >= 0 {
      assert slug[at..at + 1] == "/";
      assert slug[at] == '/';
      assert slug == own + "/" + slug[at + 1..];
    }
    if IsSpaceOf(key, slug) && key != slug {
      assert (key + "/")[|key|] == '/' == slug[|key|];
      assert forall k :: 0 <= k < |key| ==> slug[k] == (key + "/")[k] == key[k];
      assert key == slug[..|key|];
      assert slug[|key|..|key| + 1] == "/";
      assert OccursAt(slug, "/", |key|);
    }
  }

  function DocKey(): Doc -> string { (d: Doc) => SpaceKey(d.slug) }

  // ---- the space facets ---------------------------------------------------------------

  datatype Facet = Facet(value: string, count: nat)

  /** `bySpace.set(key, (bySpace.get(key) ?? 0) + 1)`, on the entries of the map. */
  function Bump(counts: seq<Facet>, name: string): seq<Facet> {
    var at := Place(counts, ValueIn(), name);
    SetEntry(counts, ValueIn(), Facet(name, if at < |counts| then counts[at].count + 1 else 1))
  }

  function Tally(docs: seq<Doc>): seq<Facet> {
    if docs == [] then [] else Bump(Tally(docs[..|docs| - 1]), SpaceKey(docs[|docs| - 1].slug))
  }

  function FacetOrder(coll: Collation): (Facet, Facet) -> int {
    (a: Facet, b: Facet) => if b.count != a.count then b.count - a.count else coll.compare(a.value, b.value)
  }

  function Facets(docs: seq<Doc>, coll: Collation): seq<Facet> {
    Sort(Tally(docs), FacetOrder(coll))
  }

  // ---- filtering and paging -----------------------------------------------------------

  datatype Tab = AllTab | ReviewTab | DirtyTab

  /** What a reader asked to see; `Some("")` is the un-namespaced space, not the absence of one. */
  datatype Narrowing = Narrowing(space: Option<string>, tab: Tab, q: Option<string>)

  predicate InSpace(space: Option<string>, d: Doc) {
    space.Some? ==> SpaceKey(d.slug) == space.value
  }

  predicate InTab(tab: Tab, d: Doc) {
    match tab
    case AllTab => true
    case ReviewTab => d.pendingReview
    case DirtyTab => d.dirty
  }

  predicate InSearch(q: Option<string>, lower: string -> string, d: Doc) {
    q.Some? && q.value != "" ==> IndexOf(lower(d.title + " " + d.slug), lower(q.value), 0) >= 0
  }

  function BySpace(space: Option<string>): Doc -> bool { (d: Doc) => InSpace(space, d) }
  function ByTab(tab: Tab): Doc -> bool { (d: Doc) => InTab(tab, d) }
  function BySearch(q: Option<string>, lower: string -> string): Doc -> bool { (d: Doc) => InSearch(q, lower, d) }

  function Matches(n: Narrowing, lower: string -> string): Doc -> bool {
    (d: Doc) => InSpace(n.space, d) && InTab(n.tab, d) && InSearch(n.q, lower, d)
  }

  function Matched(docs: seq<Doc>, n: Narrowing, lower: string -> string): seq<Doc> {
    Filter(Matches(n, lower), docs)
  }

  /** A requested page index; an index in the URL can be infinite. */
  datatype PageIndex = At(n: int) | Beyond

  function PageCount(total: nat, pageSize: nat): (n: nat)
    requires pageSize >= 1
    ensures n >= 1
  {
    var pages := (total + pageSize - 1) / pageSize;
    if pages < 1 then 1 else pages
  }

  function SafePage(page: PageIndex, pages: nat): nat
    requires pages >= 1
  {
    match page
    case At(n) => if n < 0 then 0 else if n < pages then n else pages - 1
    case Beyond => pages - 1
  }

  /** The place of a page's first document. */
  function Begin(page: nat, pageSize: nat): nat {
    page * pageSize
  }

  /** `matched.slice(start, start + size)`. */
  function Slice<T>(s: seq<T>, start: nat, size: nat): seq<T> {
    if start >= |s| then [] else if start + size >= |s| then s[start..] else s[start..start + size]
  }

  datatype TabCounts = TabCounts(all: nat, review: nat, dirty: nat)

  datatype WikiData = WikiData(
    documents: seq<Doc>,
    total: nat,
    spaces: seq<Facet>,
    tabCounts: TabCounts,
    narrowing: Narrowing,
    page: nat,
    pageSize: nat)

  function CountsOf(docs: seq<Doc>): TabCounts {
    TabCounts(|docs|, |Filter(ByTab(ReviewTab), docs)|, |Filter(ByTab(DirtyTab), docs)|)
  }

  /** The page of the wiki that a narrowing and a page index show. */
  function WikiPage(docs: seq<Doc>, n: Narrowing, page: PageIndex, pageSize: nat,
                    lower: string -> string, coll: Collation): WikiData
    requires pageSize >= 1
  {
    var matched := Matched(docs, n, lower);
    var safe := SafePage(page, PageCount(|matched|, pageSize));
    var documents := Slice(matched, Begin(safe, pageSize), pageSize);
    WikiData(documents, |matched|, Facets(docs, coll), CountsOf(docs), n, safe, pageSize)
  }

  /** The entries of `bySpace` after the counting loop. */
  method CountSpaces(all: seq<Doc>) returns (bySpace: seq<Facet>)
    ensures bySpace == Tally(all)
  {
    hide SpaceKey, Bump;
    bySpace := [];
    for i := 0 to |all|
      invariant bySpace == Tally(all[..i])
    {
      bySpace := Bump(bySpace, SpaceKey(all[i].slug));
      assert all[..i + 1][..i] == all[..i] && all[..i + 1][i] == all[i];
    }
    assert all[..|all|] == all;
  }

  /** The offline mirror of the directory endpoint. */
  method DemoWiki(all: seq<Doc>, n: Narrowing, page: PageIndex, pageSize: nat,
                  lower: string -> string, coll: Collation)
    returns (data: WikiData)
    requires pageSize >= 1
    ensures data == WikiPage(all, n, page, pageSize, lower, coll)
  {
    hide Filter, Sort, InSearch, InSpace, InTab, Matched, PageCount, SafePage, Slice, Tally;
    var bySpace := CountSpaces(all);
    var spaces := Sort(bySpace, FacetOrder(coll));
    var tabCounts := TabCounts(|all|, |Filter(ByTab(ReviewTab), all)|, |Filter(ByTab(DirtyTab), all)|);

    var matched := all;
    if n.space.Some? {
      matched := Filter(BySpace(n.space), matched);
    }
    if n.tab == ReviewTab {
      matched := Filter(ByTab(ReviewTab), matched);
    } else if n.tab == DirtyTab {
      matched := Filter(ByTab(DirtyTab), matched);
    }
    if n.q.Some? && n.q.value != "" {
      matched := Filter(BySearch(n.q, lower), matched);
    }
    StepwiseMatched(all, n, lower);

    var total := |matched|;
    var safePage := SafePage(page, PageCount(total, pageSize));
    var start := Begin(safePage, pageSize);
    data := WikiData(Slice(matched, start, pageSize), total, spaces, tabCounts, n, safePage, pageSize);
  }

  /** Filtering in three steps, each skipped when it asks for nothing, is filtering by all three. */
  lemma StepwiseMatched(all: seq<Doc>, n: Narrowing, lower: string -> string)
    ensures var a := if n.space.Some? then Filter(BySpace(n.space), all) else all;
      var b := if n.tab != AllTab then Filter(ByTab(n.tab), a) else a;
      var c := if n.q.Some? && n.q.value != "" then Filter(BySearch(n.q, lower), b) else b;
      c == Matched(all, n, lower)
  {
    hide Filter, IndexOf, SpaceKey;
    var p1, p2, p3 := BySpace(n.space), ByTab(n.tab), BySearch(n.q, lower);
    var a := if n.space.Some? then Filter(p1, all) else all;
    if n.space.None? {
      FilterAll(p1, all);
    }
    assert a == Filter(p1, all);
    var b := if n.tab != AllTab then Filter(p2, a) else a;
    if n.tab == AllTab {
      FilterAll(p2, a);
    }
    assert b == Filter(p2, a);
    if n.q.None? || n.q.value == "" {
      FilterAll(p3, b);
    }
    var p12: Doc -> bool := (d: Doc) => InSpace(n.space, d) && InTab(n.tab, d);
    FilterFilter(p1, p2, p12, all);
    FilterFilter(p12, p3, Matches(n, lower), all);
  }

  /** What a reader gets to see of the corpus, in terms of slugs, flags and text. */
  lemma MatchedExactly(docs: seq<Doc>, n: Narrowing, lower: string -> string, d: Doc)
    ensures d in Matched(docs, n, lower) <==>
      && d in docs
      && (n.space.Some? ==> IsSpaceOf(n.space.value, d.slug))
      && (n.tab == ReviewTab ==> d.pendingReview)
      && (n.tab == DirtyTab ==> d.dirty)
      && (n.q.Some? && n.q.value != "" ==> Contains(lower(d.title + " " + d.slug), lower(n.q.value)))
  {
    hide Filter, IndexOf, SpaceKey, IsSpaceOf;
    if n.space.Some? {
      SpaceKeyExactly(d.slug, n.space.value);
    }
    if n.q.Some? {
      FoundExactly(lower(d.title + " " + d.slug), lower(n.q.value));
    }
  }

  lemma FoundExactly(s: string, pat: string)
    ensures IndexOf(s, pat, 0) >= 0 <==> Contains(s, pat)
  {
    hide OccursAt;
    var at := IndexOf(s, pat, 0);
  }

  // ---- paging -------------------------------------------------------------------------

  lemma PageCountBounds(total: nat, pageSize: nat)
    requires pageSize >= 1
    ensures var pages := PageCount(total, pageSize);
      && total <= pages * pageSize
      && (total > 0 ==> (pages - 1) * pageSize < total)
      && (total == 0 ==> pages == 1)
  {
    var q := (total + pageSize - 1) / pageSize;
    assert total + pageSize - 1 == q * pageSize + (total + pageSize - 1) % pageSize;
    if q < 1 {
      assert q * pageSize <= 0;
    } else {
      assert (q - 1) * pageSize == q * pageSize - pageSize;
    }
  }

  /** The documents of the pages before `k`, one page after the other. */
  function PagesBefore(docs: seq<Doc>, n: Narrowing, pageSize: nat,
                       lower: string -> string, coll: Collation, k: nat): seq<Doc>
    requires pageSize >= 1
  {
    if k == 0 then []
    else
      PagesBefore(docs, n, pageSize, lower, coll, k - 1)
      + WikiPage(docs, n, At(k - 1), pageSize, lower, coll).documents
  }

  lemma SliceNext<T>(s: seq<T>, start: nat, size: nat)
    ensures s[..if start < |s| then start else |s|] + Slice(s, start, size)
            == s[..if start + size < |s| then start + size else |s|]
  {
  }

  lemma PageSlice(docs: seq<Doc>, n: Narrowing, pageSize: nat, lower: string -> string, coll: Collation, k: nat)
    requires pageSize >= 1 && k < PageCount(|Matched(docs, n, lower)|, pageSize)
    ensures WikiPage(docs, n, At(k), pageSize, lower, coll).documents ==
            Slice(Matched(docs, n, lower), k * pageSize, pageSize)
  {
    hide Matched, Facets, PageCount, Slice, CountsOf;
  }

  lemma {:induction false} PagesPrefix(docs: seq<Doc>, n: Narrowing, pageSize: nat,
                                       lower: string -> string, coll: Collation, k: nat)
    requires pageSize >= 1
    requires k <= PageCount(|Matched(docs, n, lower)|, pageSize)
    ensures var m := Matched(docs, n, lower);
      PagesBefore(docs, n, pageSize, lower, coll, k) == m[..if k * pageSize < |m| then k * pageSize else |m|]
  {
    hide Matched, Facets, PageCount, Slice, WikiPage;
    if k == 0 {
    } else {
      PagesPrefix(docs, n, pageSize, lower, coll, k - 1);
      PageSlice(docs, n, pageSize, lower, coll, k - 1);
      assert (k - 1) * pageSize + pageSize == k * pageSize;
      SliceNext(Matched(docs, n, lower), (k - 1) * pageSize, pageSize);
    }
  }

  /** The pages, one after the other, are exactly the matching documents in corpus order. */
  lemma PagesTile(docs: seq<Doc>, n: Narrowing, pageSize: nat, lower: string -> string, coll: Collation)
    requires pageSize >= 1
    ensures var m := Matched(docs, n, lower);
      PagesBefore(docs, n, pageSize, lower, coll, PageCount(|m|, pageSize)) == m
  {
    hide Matched, PageCount;
    var m := Matched(docs, n, lower);
    PageCountBounds(|m|, pageSize);
    PagesPrefix(docs, n, pageSize, lower, coll, PageCount(|m|, pageSize));
  }

  /** A window that starts inside a list, and is its last one or not. */
  lemma Window<T>(m: seq<T>, start: nat, size: nat, last: bool)
    requires size >= 1
    requires if m == [] then start == 0 && last else start < |m|
    requires last <==> |m| <= start + size
    ensures var w := Slice(m, start, size);
      && (w == [] <==> m == [])
      && (m != [] ==> 0 < |w| <= size && start + |w| <= |m| && w == m[start..start + |w|])
      && (start + |w| < |m| <==> !last)
  {
  }

  /** Whatever page is asked for, the page shown is a real one; it is empty only when nothing
      matches; and it is the stretch of the matches that "showing a to b of total" names. */
  lemma PageShown(docs: seq<Doc>, n: Narrowing, page: PageIndex, pageSize: nat,
                  lower: string -> string, coll: Collation)
    requires pageSize >= 1
    ensures var m := Matched(docs, n, lower);
      var d := WikiPage(docs, n, page, pageSize, lower, coll);
      var start := Begin(d.page, pageSize);
      && d.page < PageCount(|m|, pageSize)
      && (page.At? && 0 <= page.n < PageCount(|m|, pageSize) ==> d.page == page.n)
      && (page.At? && page.n < 0 ==> d.page == 0)
      && (page.Beyond? || page.n >= PageCount(|m|, pageSize) ==> d.page + 1 == PageCount(|m|, pageSize))
      && (d.documents == [] <==> m == [])
      && (m != [] ==> 0 < |d.documents| <= pageSize && start + |d.documents| <= d.total
                      && d.documents == m[start..start + |d.documents|])
      && (start + |d.documents| < d.total <==> d.page + 1 < PageCount(|m|, pageSize))
  {
    hide Matched, PageCount, Facets, Slice, SafePage, CountsOf, Begin;
    var m := Matched(docs, n, lower);
    var pages := PageCount(|m|, pageSize);
    var k := SafePage(page, pages);
    PageClamped(page, pages);
    PageStart(|m|, k, pages, pageSize);
    Window(m, Begin(k, pageSize), pageSize, k + 1 == pages);
  }

  lemma PageClamped(page: PageIndex, pages: nat)
    requires pages >= 1
    ensures SafePage(page, pages) < pages
    ensures page.At? && 0 <= page.n < pages ==> SafePage(page, pages) == page.n
    ensures page.At? && page.n < 0 ==> SafePage(page, pages) == 0
    ensures page.Beyond? || page.n >= pages ==> SafePage(page, pages) == pages - 1
  {
  }

  lemma PageStart(total: nat, k: nat, pages: nat, pageSize: nat)
    requires pageSize >= 1 && pages == PageCount(total, pageSize) && k < pages
    ensures if total == 0 then Begin(k, pageSize) == 0 && k + 1 == pages else Begin(k, pageSize) < total
    ensures k + 1 == pages <==> total <= Begin(k, pageSize) + pageSize
  {
    hide PageCount;
    PageCountBounds(total, pageSize);
    Monotone(k, pages - 1, pageSize);
    assert (k + 1) * pageSize == k * pageSize + pageSize;
    if k + 1 < pages {
      Monotone(k + 1, pages - 1, pageSize);
    }
  }

  lemma Monotone(a: nat, b: nat, c: nat)
    ensures a <= b ==> a * c <= b * c
  {
    if a <= b {
      assert (b - a) * c >= 0;
    }
  }

  // ---- counts agree with what a reader opens ------------------------------------------

  function SizeOf(): ((string, seq<Doc>)) -> Facet { (g: (string, seq<Doc>)) => Facet(g.0, |g.1|) }

  lemma BumpIsPut(groups: Groups<Doc>, name: string, d: Doc)
    ensures Bump(Map(SizeOf(), groups), name) == Map(SizeOf(), Put(groups, name, d))
  {
    hide Place, Map;
    var counts := Map(SizeOf(), groups);
    SamePlace(counts, ValueIn(), groups, NameIn(), name);
    var at := Place(groups, NameIn(), name);
    var entry := (name, ListOf(groups, name) + [d]);
    assert Put(groups, name, d) == if at < |groups| then groups[at := entry] else groups + [entry];
    assert Bump(counts, name) == if at < |groups| then counts[at := SizeOf()(entry)] else counts + [SizeOf()(entry)];
  }

  /** Counting and gathering see the same spaces in the same order. */
  lemma {:induction false} TallyIsGroupSizes(docs: seq<Doc>)
    ensures Tally(docs) == Map(SizeOf(), Group(docs, DocKey()))
  {
    if docs == [] {
    } else {
      var k := |docs| - 1;
      TallyIsGroupSizes(docs[..k]);
      BumpIsPut(Group(docs[..k], DocKey()), SpaceKey(docs[k].slug), docs[k]);
    }
  }

  function CountIn(): Facet -> nat { (f: Facet) => f.count }
  function ValueIn(): Facet -> string { (f: Facet) => f.value }

  lemma BumpTotal(counts: seq<Facet>, name: string)
    ensures SumOf(Bump(counts, name), CountIn()) == SumOf(counts, CountIn()) + 1
  {
    hide Place, SetEntry, SumOf;
    var at := Place(counts, ValueIn(), name);
    SumSet(counts, ValueIn(), Facet(name, if at < |counts| then counts[at].count + 1 else 1), CountIn());
  }

  lemma {:induction false} TallyTotal(docs: seq<Doc>)
    ensures SumOf(Tally(docs), CountIn()) == |docs|
  {
    if docs == [] {
    } else {
      TallyTotal(docs[..|docs| - 1]);
      BumpTotal(Tally(docs[..|docs| - 1]), SpaceKey(docs[|docs| - 1].slug));
    }
  }

  lemma TallyDistinct(docs: seq<Doc>)
    ensures DistinctBy(Tally(docs), ValueIn())
  {
    hide Tally, Group;
    TallyIsGroupSizes(docs);
    GroupGathers(docs, DocKey());
  }

  lemma FacetTotal(coll: Collation, x: Facet, y: Facet)
    requires coll.Lawful()
    ensures FacetOrder(coll)(x, y) <= 0 || FacetOrder(coll)(y, x) <= 0
  {
    assert coll.compare(x.value, y.value) <= 0 || coll.compare(y.value, x.value) <= 0;
  }

  lemma FacetTransitive(coll: Collation, x: Facet, y: Facet, z: Facet)
    requires coll.Lawful() && FacetOrder(coll)(x, y) <= 0 && FacetOrder(coll)(y, z) <= 0
    ensures FacetOrder(coll)(x, z) <= 0
  {
    if x.count == y.count == z.count {
      CompareTransitive(coll, x.value, y.value, z.value);
    }
  }

  lemma FacetOrders(coll: Collation, fs: seq<Facet>)
    requires coll.Lawful()
    ensures Orders(FacetOrder(coll), fs)
  {
    hide FacetOrder;
    var cmp := FacetOrder(coll);
    forall x, y
      ensures cmp(x, y) <= 0 || cmp(y, x) <= 0
    {
      FacetTotal(coll, x, y);
    }
    forall x, y, z | cmp(x, y) <= 0 && cmp(y, z) <= 0
      ensures cmp(x, z) <= 0
    {
      FacetTransitive(coll, x, y, z);
    }
  }

  /** The space facets have distinct values, sum to the size of the corpus, and stand in strict
      order: larger counts first, ties by name. */
  lemma FacetsArePartition(docs: seq<Doc>, coll: Collation)
    requires coll.Lawful()
    ensures var fs := Facets(docs, coll);
      && DistinctBy(fs, ValueIn())
      && SumOf(fs, CountIn()) == |docs|
      && forall i, j :: 0 <= i < j < |fs| ==>
           fs[i].count > fs[j].count || (fs[i].count == fs[j].count && coll.compare(fs[i].value, fs[j].value) < 0)
  {
    hide Tally, Orders;
    TallyTotal(docs);
    SumSort(Tally(docs), FacetOrder(coll), CountIn());
    TallyDistinct(docs);
    SortDistinct(Tally(docs), FacetOrder(coll), ValueIn());
    FacetOrders(coll, Tally(docs));
    SortSorts(Tally(docs), FacetOrder(coll));
    var fs := Facets(docs, coll);
    forall i, j | 0 <= i < j < |fs|
      ensures fs[i].count > fs[j].count || (fs[i].count == fs[j].count && coll.compare(fs[i].value, fs[j].value) < 0)
    {
      assert FacetOrder(coll)(fs[i], fs[j]) <= 0;
      assert ValueIn()(fs[i]) != ValueIn()(fs[j]);
    }
  }

  lemma FacetMeaning(docs: seq<Doc>, coll: Collation, f: Facet)
    requires f in Facets(docs, coll)
    ensures f.count == |Filter(BySpace(Some(f.value)), docs)| && f.count > 0
  {
    hide Filter, Put, Group, SpaceKey;
    Members(Facets(docs, coll), Tally(docs));
    TallyIsGroupSizes(docs);
    GroupGathers(docs, DocKey());
    var groups := Group(docs, DocKey());
    var k :| 0 <= k < |groups| && SizeOf()(groups[k]) == f;
    FilterSame(Named(DocKey(), groups[k].0), BySpace(Some(f.value)), docs);
  }

  lemma OneSpace(docs: seq<Doc>, value: string, lower: string -> string)
    ensures Matched(docs, Narrowing(Some(value), AllTab, None), lower) == Filter(BySpace(Some(value)), docs)
  {
    hide SpaceKey;
    FilterSame(Matches(Narrowing(Some(value), AllTab, None), lower), BySpace(Some(value)), docs);
  }

  lemma OneTab(docs: seq<Doc>, tab: Tab, lower: string -> string)
    ensures Matched(docs, Narrowing(None, tab, None), lower) == Filter(ByTab(tab), docs)
  {
    hide SpaceKey;
    FilterSame(Matches(Narrowing(None, tab, None), lower), ByTab(tab), docs);
  }

  /** How many documents wait for review, and how many are behind their sources. */
  function Waiting(docs: seq<Doc>): nat {
    if docs == [] then 0 else (if docs[0].pendingReview then 1 else 0) + Waiting(docs[1..])
  }

  function Behind(docs: seq<Doc>): nat {
    if docs == [] then 0 else (if docs[0].dirty then 1 else 0) + Behind(docs[1..])
  }

  /** How many documents have a slug in a space. */
  function Filed(docs: seq<Doc>, space: string): nat {
    if docs == [] then 0 else (if SpaceKey(docs[0].slug) == space then 1 else 0) + Filed(docs[1..], space)
  }

  lemma {:induction false} CountsExactly(docs: seq<Doc>, space: string)
    ensures CountsOf(docs) == TabCounts(|docs|, Waiting(docs), Behind(docs))
    ensures |Filter(BySpace(Some(space)), docs)| == Filed(docs, space)
  {
    if docs == [] {
    } else {
      hide SpaceKey;
      CountsExactly(docs[1..], space);
    }
  }

  /** The rail and the tabs are those of the whole corpus: whatever is narrowed and whichever page is
      asked for, they are the same, count every document once, and a space is on the rail exactly when
      it has a document, with their number. */
  lemma RailIsWhole(docs: seq<Doc>, n: Narrowing, page: PageIndex, pageSize: nat,
                    lower: string -> string, coll: Collation)
    requires pageSize >= 1 && coll.Lawful()
    ensures var d := WikiPage(docs, n, page, pageSize, lower, coll);
      && d.tabCounts == TabCounts(|docs|, Waiting(docs), Behind(docs))
      && SumOf(d.spaces, CountIn()) == |docs|
      && (forall f :: f in d.spaces <==> f.count == Filed(docs, f.value) > 0)
      && (forall i, j :: 0 <= i < j < |d.spaces| ==>
            d.spaces[i].count > d.spaces[j].count
            || (d.spaces[i].count == d.spaces[j].count && coll.compare(d.spaces[i].value, d.spaces[j].value) < 0))
    ensures forall n', page' ::
      var d, d' := WikiPage(docs, n, page, pageSize, lower, coll), WikiPage(docs, n', page', pageSize, lower, coll);
      d.spaces == d'.spaces && d.tabCounts == d'.tabCounts
  {
    hide Facets, Matched, Slice, SafePage, PageCount, CountsOf, SumOf, DistinctBy, Filter;
    CountsExactly(docs, "");
    FacetsArePartition(docs, coll);
    forall f
      ensures f in Facets(docs, coll) <==> f.count == Filed(docs, f.value) > 0
    {
      CountsExactly(docs, f.value);
      if f in Facets(docs, coll) {
        FacetMeaning(docs, coll, f);
      } else if Filed(docs, f.value) > 0 && f.count == Filed(docs, f.value) {
        var d := SomeFiled(docs, f.value);
        FacetOfSpace(docs, coll, d, f);
      }
    }
  }

  lemma {:induction false} SomeFiled(docs: seq<Doc>, space: string) returns (d: Doc)
    requires Filed(docs, space) > 0
    ensures d in docs && SpaceKey(d.slug) == space
  {
    hide SpaceKey;
    if SpaceKey(docs[0].slug) == space {
      d := docs[0];
    } else {
      d := SomeFiled(docs[1..], space);
    }
  }

  lemma FacetOfSpace(docs: seq<Doc>, coll: Collation, d: Doc, f: Facet)
    requires d in docs && SpaceKey(d.slug) == f.value && f.count == |Filter(BySpace(Some(f.value)), docs)|
    ensures f in Facets(docs, coll)
  {
    hide Group, SpaceKey, Filter, Facets, Tally, BySpace;
    TallyIsGroupSizes(docs);
    GroupGathers(docs, DocKey());
    var at := Place(Group(docs, DocKey()), NameIn(), DocKey()(d));
    var g := Tally(docs)[at];
    FacetsHave(docs, coll, g);
    FacetMeaning(docs, coll, g);
    assert g.value == f.value;
  }

  lemma FacetsHave(docs: seq<Doc>, coll: Collation, f: Facet)
    requires f in Tally(docs)
    ensures f in Facets(docs, coll)
  {
    Members(Facets(docs, coll), Tally(docs));
  }

  /** Opening a facet of the rail, or a queue tab, alone shows as many documents as its count says,
      and what is shown is told back with the size of the page. */
  lemma CountsAgree(docs: seq<Doc>, n: Narrowing, page: PageIndex, page': PageIndex, pageSize: nat,
                    lower: string -> string, coll: Collation)
    requires pageSize >= 1
    ensures var d := WikiPage(docs, n, page, pageSize, lower, coll);
      && d.narrowing == n && d.pageSize == pageSize && d.total == |Matched(docs, n, lower)|
      && (forall f :: f in d.spaces ==>
            WikiPage(docs, Narrowing(Some(f.value), AllTab, None), page', pageSize, lower, coll).total == f.count > 0)
      && WikiPage(docs, Narrowing(None, AllTab, None), page', pageSize, lower, coll).total == d.tabCounts.all
      && WikiPage(docs, Narrowing(None, ReviewTab, None), page', pageSize, lower, coll).total == d.tabCounts.review
      && WikiPage(docs, Narrowing(None, DirtyTab, None), page', pageSize, lower, coll).total == d.tabCounts.dirty
  {
    hide Facets, Filter, Matched, Slice;
    forall f | f in Facets(docs, coll)
      ensures WikiPage(docs, Narrowing(Some(f.value), AllTab, None), page', pageSize, lower, coll).total == f.count > 0
    {
      FacetMeaning(docs, coll, f);
      OneSpace(docs, f.value, lower);
    }
    OneTab(docs, AllTab, lower);
    FilterAll(ByTab(AllTab), docs);
    OneTab(docs, ReviewTab, lower);
    OneTab(docs, DirtyTab, lower);
  }
}
