/**
 The page tree: pages gathered into spaces, biggest first, with the unfiled ones last.
 */
module PageTree {
  import opened Text
  import opened Options
  import opened Lists
  import opened Sorting
  import opened Directory

  datatype TreePage = TreePage(doc: Doc, space: string, leaf: string, hay: string)

  /** A slug's space and leaf; one without a name before its first slash is unfiled. */
  function SplitSlug(slug: string): (string, string) {
    var at := IndexOf(slug, "/", 0);
    if at <= 0 then (UNFILED, slug) else (slug[..at], slug[at + 1..])
  }

  /** The text that the tree's own search looks through is the one that the directory's does. */
  lemma SameSearch(d: Doc, q: string, lower: string -> string)
    ensures InSearch(Some(q), lower, d) <==> q == "" || Contains(ToPage(lower)(d).hay, lower(q))
  {
    hide IndexOf, SplitSlug;
    FoundExactly(lower(d.title + " " + d.slug), lower(q));
  }

  /** A filed slug is its space, a slash and its leaf; any other is its own leaf. */
  lemma SplitRejoins(slug: string)
    ensures var (space, leaf) := SplitSlug(slug);
      if SpaceKey(slug) != "" && SpaceKey(slug) != slug then IsSpaceOf(space, slug) && space + "/" + leaf == slug
      else space == UNFILED && leaf == slug
  {
    hide IndexOf;
    var at := IndexOf(slug, "/", 0);
    SpaceKeyExactly(slug, SpaceKey(slug));
    if at > 0 {
      assert slug[at..at + 1] == "/";
    }
  }

  function ToPage(lower: string -> string): Doc -> TreePage {
    (d: Doc) => TreePage(d, SplitSlug(d.slug).0, SplitSlug(d.slug).1, lower(d.title + " " + d.slug))
  }

  datatype Space = Space(name: string, pages: seq<TreePage>, review: nat, dirty: nat)

  function PageKey(): TreePage -> string { (p: TreePage) => p.space }
  function NameOf(): Space -> string { (s: Space) => s.name }
  function Pending(): TreePage -> bool { (p: TreePage) => p.doc.pendingReview }
  function Stale(): TreePage -> bool { (p: TreePage) => p.doc.dirty }

  function TitleOrder(coll: Collation): (TreePage, TreePage) -> int {
    (a: TreePage, b: TreePage) => coll.compare(a.doc.title, b.doc.title)
  }

  function ToSpace(coll: Collation): ((string, seq<TreePage>)) -> Space {
    (g: (string, seq<TreePage>)) =>
      Space(g.0, Sort(g.1, TitleOrder(coll)), |Filter(Pending(), g.1)|, |Filter(Stale(), g.1)|)
  }

  /** The comparison of spaces as written: never symmetric on the unfiled one. */
  function CompareSpaces(a: Space, b: Space, coll: Collation): int {
    if a.name == UNFILED then 1
    else if b.name == UNFILED then -1
    else if |b.pages| != |a.pages| then |b.pages| - |a.pages|
    else coll.compare(a.name, b.name)
  }

  function SpaceOrder(coll: Collation): (Space, Space) -> int {
    (a: Space, b: Space) => CompareSpaces(a, b, coll)
  }

  function Unsorted(pages: seq<TreePage>, coll: Collation): seq<Space> {
    Map(ToSpace(coll), Group(pages, PageKey()))
  }

  function Spaces(pages: seq<TreePage>, coll: Collation): seq<Space> {
    Sort(Unsorted(pages, coll), SpaceOrder(coll))
  }

  /** One pass gathers the pages under their spaces; then the spaces are sorted. */
  method BuildSpaces(pages: seq<TreePage>, coll: Collation) returns (spaces: seq<Space>)
    ensures spaces == Spaces(pages, coll)
  {
    hide Put, Sort;
    var groups: Groups<TreePage> := [];
    for i := 0 to |pages|
      invariant groups == Group(pages[..i], PageKey())
    {
      groups := Put(groups, pages[i].space, pages[i]);
      assert pages[..i + 1][..i] == pages[..i] && pages[..i + 1][i] == pages[i];
    }
    assert pages[..|pages|] == pages;
    spaces := Sort(Map(ToSpace(coll), groups), SpaceOrder(coll));
  }

  // ---- the spaces are a partition of the pages ----------------------------------------

  /** What a space of a page tree holds: its pages are the pages of its name, in title order with
      ties in corpus order, and its queue counts are theirs. */
  ghost predicate Holds(s: Space, pages: seq<TreePage>, coll: Collation) {
    var own := Filter(Named(PageKey(), s.name), pages);
    && own != []
    && multiset(s.pages) == multiset(own)
    && (forall i, j :: 0 <= i < j < |s.pages| ==> coll.compare(s.pages[i].doc.title, s.pages[j].doc.title) <= 0)
    && (forall t :: Filter(Titled(t), s.pages) == Filter(Titled(t), own))
    && s.review == Waiting(Map(DocOf(), own))
    && s.dirty == Behind(Map(DocOf(), own))
  }

  function DocOf(): TreePage -> Doc { (p: TreePage) => p.doc }

  lemma {:induction false} FlagsCounted(pages: seq<TreePage>)
    ensures |Filter(Pending(), pages)| == Waiting(Map(DocOf(), pages))
    ensures |Filter(Stale(), pages)| == Behind(Map(DocOf(), pages))
  {
    if pages == [] {
    } else {
      FlagsCounted(pages[1..]);
      assert Map(DocOf(), pages)[1..] == Map(DocOf(), pages[1..]);
    }
  }

  function Titled(t: string): TreePage -> bool { (p: TreePage) => p.doc.title == t }

  lemma TitleOrders(coll: Collation, pages: seq<TreePage>)
    requires coll.Lawful()
    ensures Orders(TitleOrder(coll), pages)
  {
    forall x: TreePage, y: TreePage
      ensures TitleOrder(coll)(x, y) <= 0 || TitleOrder(coll)(y, x) <= 0
    {
      assert coll.compare(x.doc.title, y.doc.title) <= 0 || coll.compare(y.doc.title, x.doc.title) <= 0;
    }
    forall x: TreePage, y: TreePage, z: TreePage | TitleOrder(coll)(x, y) <= 0 && TitleOrder(coll)(y, z) <= 0
      ensures TitleOrder(coll)(x, z) <= 0
    {
      CompareTransitive(coll, x.doc.title, y.doc.title, z.doc.title);
    }
  }

  lemma SpaceHolds(g: (string, seq<TreePage>), pages: seq<TreePage>, coll: Collation)
    requires coll.Lawful()
    requires g.1 != [] && g.1 == Filter(Named(PageKey(), g.0), pages)
    ensures Holds(ToSpace(coll)(g), pages, coll)
  {
    hide Filter, Sort, Orders;
    FlagsCounted(g.1);
    TitleOrders(coll, g.1);
    SortSorts(g.1, TitleOrder(coll));
    var sorted := Sort(g.1, TitleOrder(coll));
    assert forall i, j :: 0 <= i < j < |sorted| ==> TitleOrder(coll)(sorted[i], sorted[j]) <= 0;
    forall t
      ensures Filter(Titled(t), Sort(g.1, TitleOrder(coll))) == Filter(Titled(t), g.1)
    {
      assert coll.compare(t, t) == 0;
      SortStable(g.1, TitleOrder(coll), Titled(t));
    }
  }

  lemma UnsortedHolds(pages: seq<TreePage>, coll: Collation)
    requires coll.Lawful()
    ensures DistinctBy(Unsorted(pages, coll), NameOf())
    ensures forall s :: s in Unsorted(pages, coll) ==> Holds(s, pages, coll)
    ensures forall p :: p in pages ==> exists s :: s in Unsorted(pages, coll) && s.name == p.space
  {
    hide Group, Holds, Filter, Sort;
    GroupGathers(pages, PageKey());
    var groups := Group(pages, PageKey());
    var us := Unsorted(pages, coll);
    forall s | s in us
      ensures Holds(s, pages, coll)
    {
      var k :| 0 <= k < |us| && us[k] == s;
      SpaceHolds(groups[k], pages, coll);
    }
    forall p | p in pages
      ensures exists s :: s in us && s.name == p.space
    {
      var k := Place(groups, NameIn(), PageKey()(p));
      assert us[k] in us;
    }
  }

  function ReviewIn(): Space -> nat { (s: Space) => s.review }
  function DirtyIn(): Space -> nat { (s: Space) => s.dirty }
  function SizeIn(): Space -> nat { (s: Space) => |s.pages| }

  lemma {:induction false} SumMapped(groups: Groups<TreePage>, coll: Collation)
    ensures SumOf(Map(ToSpace(coll), groups), ReviewIn()) == SumOf(groups, Passing(Pending()))
    ensures SumOf(Map(ToSpace(coll), groups), DirtyIn()) == SumOf(groups, Passing(Stale()))
    ensures SumOf(Map(ToSpace(coll), groups), SizeIn()) == SumOf(groups, Passing(AnyPage()))
  {
    hide Filter, Sort;
    if groups == [] {
    } else {
      SumMapped(groups[1..], coll);
      FilterAll(AnyPage(), groups[0].1);
      assert Map(ToSpace(coll), groups)[1..] == Map(ToSpace(coll), groups[1..]);
    }
  }

  function AnyPage(): TreePage -> bool { (p: TreePage) => true }

  /** The spaces are a partition of the pages: distinct names; every page's space is there; each
      space holds its pages and no others; and sizes and queue counts sum to the totals. */
  lemma SpacesPartition(pages: seq<TreePage>, coll: Collation)
    requires coll.Lawful()
    ensures var ss := Spaces(pages, coll);
      && DistinctBy(ss, NameOf())
      && (forall s :: s in ss ==> Holds(s, pages, coll))
      && (forall p :: p in pages ==> exists s :: s in ss && s.name == p.space)
      && SumOf(ss, SizeIn()) == |pages|
      && SumOf(ss, ReviewIn()) == Waiting(Map(DocOf(), pages))
      && SumOf(ss, DirtyIn()) == Behind(Map(DocOf(), pages))
  {
    FlagsCounted(pages);
    hide Sort, Filter, Group, Holds, SumOf, DistinctBy;
    var us := Unsorted(pages, coll);
    UnsortedHolds(pages, coll);
    SortDistinct(us, SpaceOrder(coll), NameOf());
    Members(Spaces(pages, coll), us);
    SumMapped(Group(pages, PageKey()), coll);
    SumSort(us, SpaceOrder(coll), SizeIn());
    SumSort(us, SpaceOrder(coll), ReviewIn());
    SumSort(us, SpaceOrder(coll), DirtyIn());
    GroupSum(pages, PageKey(), AnyPage());
    GroupSum(pages, PageKey(), Pending());
    GroupSum(pages, PageKey(), Stale());
    FilterAll(AnyPage(), pages);
  }

  // ---- the order of the spaces --------------------------------------------------------

  /** The comparison as it would be if a space were also compared with itself. */
  function CompareEvenly(a: Space, b: Space, coll: Collation): int {
    if a.name == b.name then 0 else CompareSpaces(a, b, coll)
  }

  function EvenOrder(coll: Collation): (Space, Space) -> int {
    (a: Space, b: Space) => CompareEvenly(a, b, coll)
  }

  lemma EvenTransitive(coll: Collation, x: Space, y: Space, z: Space)
    requires coll.Lawful()
    requires x.name == y.name ==> x == y
    requires y.name == z.name ==> y == z
    requires CompareEvenly(x, y, coll) <= 0 && CompareEvenly(y, z, coll) <= 0
    ensures CompareEvenly(x, z, coll) <= 0
  {
    if x.name != y.name && y.name != z.name && |x.pages| == |y.pages| == |z.pages| && z.name != UNFILED {
      CompareTransitive(coll, x.name, y.name, z.name);
    }
  }

  lemma EvenTotal(coll: Collation, x: Space, y: Space)
    requires coll.Lawful()
    ensures CompareEvenly(x, y, coll) <= 0 || CompareEvenly(y, x, coll) <= 0
  {
    assert coll.compare(x.name, y.name) <= 0 || coll.compare(y.name, x.name) <= 0;
  }

  lemma NamesDecide(ss: seq<Space>)
    requires DistinctBy(ss, NameOf())
    ensures forall x, y :: x in ss && y in ss && x.name == y.name ==> x == y
  {
    forall x, y | x in ss && y in ss && x.name == y.name
      ensures x == y
    {
      var i :| 0 <= i < |ss| && ss[i] == x;
      var j :| 0 <= j < |ss| && ss[j] == y;
      assert NameOf()(ss[i]) == NameOf()(ss[j]);
    }
  }

  lemma EvenOrders(coll: Collation, ss: seq<Space>)
    requires coll.Lawful() && DistinctBy(ss, NameOf())
    ensures Orders(EvenOrder(coll), ss)
  {
    hide CompareEvenly, DistinctBy;
    NamesDecide(ss);
    forall x, y
      ensures CompareEvenly(x, y, coll) <= 0 || CompareEvenly(y, x, coll) <= 0
    {
      EvenTotal(coll, x, y);
    }
    forall x, y, z | x in ss && y in ss && z in ss && CompareEvenly(x, y, coll) <= 0 && CompareEvenly(y, z, coll) <= 0
      ensures CompareEvenly(x, z, coll) <= 0
    {
      EvenTransitive(coll, x, y, z);
    }
  }

  /** Bigger spaces come first, ties by name, and the unfiled one last whatever its size. */
  ghost predicate Precedes(a: Space, b: Space, coll: Collation) {
    && a.name != UNFILED
    && (b.name == UNFILED || |a.pages| > |b.pages| || (|a.pages| == |b.pages| && coll.compare(a.name, b.name) < 0))
  }

  lemma SpacesInOrder(pages: seq<TreePage>, coll: Collation)
    requires coll.Lawful()
    ensures var ss := Spaces(pages, coll);
      forall i, j :: 0 <= i < j < |ss| ==> Precedes(ss[i], ss[j], coll)
  {
    hide Sort, Unsorted, Holds, Orders;
    var us := Unsorted(pages, coll);
    UnsortedHolds(pages, coll);
    SortSame(us, SpaceOrder(coll), EvenOrder(coll), NameOf());
    EvenOrders(coll, us);
    SortSorts(us, EvenOrder(coll));
    SortDistinct(us, EvenOrder(coll), NameOf());
    var ss := Spaces(pages, coll);
    forall i, j | 0 <= i < j < |ss|
      ensures Precedes(ss[i], ss[j], coll)
    {
      assert EvenOrder(coll)(ss[i], ss[j]) <= 0;
      assert NameOf()(ss[i]) != NameOf()(ss[j]);
      assert coll.compare(ss[i].name, ss[j].name) != 0;
    }
  }

  // ---- the two directories agree ------------------------------------------------------

  /** A document whose space has the same name in both directories: its slug has a name before
      its first slash, or is `unfiled` itself. */
  predicate SameName(d: Doc) {
    SplitSlug(d.slug).0 == SpaceKey(d.slug)
  }

  lemma SameNameExactly(d: Doc)
    ensures SameName(d) <==> IndexOf(d.slug, "/", 0) > 0 || d.slug == UNFILED
    ensures SpaceKey(d.slug) == UNFILED ==> SameName(d)
    ensures SplitSlug(d.slug).0 != UNFILED ==> SameName(d)
  {
    var at := IndexOf(d.slug, "/", 0);
    if at == 0 {
      assert SpaceKey(d.slug) == "";
      assert d.slug[0..1] == "/" && UNFILED[0] == 'u';
      assert d.slug[0] == '/';
    } else if at < 0 && d.slug == UNFILED {
      assert SplitSlug(d.slug).0 == UNFILED;
    }
  }

  function ToFacet(): Space -> Facet { (s: Space) => Facet(s.name, |s.pages|) }

  ghost predicate SameShape(a: Groups<Doc>, b: Groups<TreePage>) {
    |a| == |b| && forall k :: 0 <= k < |a| ==> a[k].0 == b[k].0 && |a[k].1| == |b[k].1|
  }

  lemma MapPut(groups: Groups<Doc>, groups': Groups<TreePage>, name: string, d: Doc, p: TreePage)
    requires SameShape(groups, groups')
    ensures SameShape(Put(groups, name, d), Put(groups', name, p))
  {
    hide Place;
    SamePlace(groups, NameIn(), groups', NameIn(), name);
  }

  lemma PagesPart(docs: seq<Doc>, lower: string -> string, k: nat)
    requires k < |docs|
    ensures var pages := Map(ToPage(lower), docs);
      pages[..k] == Map(ToPage(lower), docs[..k]) && pages[k].space == SplitSlug(docs[k].slug).0
  {
    hide SplitSlug;
  }

  ghost predicate AllSameName(docs: seq<Doc>) {
    forall d :: d in docs ==> SameName(d)
  }

  lemma SameNamePart(docs: seq<Doc>, k: nat)
    requires AllSameName(docs) && k < |docs|
    ensures AllSameName(docs[..k]) && SplitSlug(docs[k].slug).0 == SpaceKey(docs[k].slug)
  {
    hide SplitSlug, SpaceKey;
    assert docs[k] in docs;
  }

  /** Gathering documents by their key and pages by their space yields groups of the same names
      and sizes in the same order. */
  lemma {:induction false} SameGroups(docs: seq<Doc>, lower: string -> string)
    requires AllSameName(docs)
    ensures SameShape(Group(docs, DocKey()), Group(Map(ToPage(lower), docs), PageKey()))
  {
    if docs == [] {
    } else {
      hide Put, SpaceKey, Map, SplitSlug, AllSameName, SameShape;
      var k := |docs| - 1;
      var pages := Map(ToPage(lower), docs);
      SameNamePart(docs, k);
      PagesPart(docs, lower, k);
      SameGroups(docs[..k], lower);
      MapPut(Group(docs[..k], DocKey()), Group(pages[..k], PageKey()), SpaceKey(docs[k].slug), docs[k], pages[k]);
    }
  }

  /** The unfiled facet, if there is one, stands last. */
  ghost predicate UnfiledLast(fs: seq<Facet>) {
    forall i :: 0 <= i < |fs| - 1 ==> fs[i].value != UNFILED
  }

  /** The order of the tree, on facets. */
  function TreeOrder(coll: Collation): (Facet, Facet) -> bool {
    (a: Facet, b: Facet) =>
      && a.value != UNFILED
      && (b.value == UNFILED || a.count > b.count || (a.count == b.count && coll.compare(a.value, b.value) < 0))
  }

  lemma TreeOrdered(pages: seq<TreePage>, coll: Collation)
    requires coll.Lawful()
    ensures Strict(Map(ToFacet(), Spaces(pages, coll)), TreeOrder(coll))
  {
    hide Spaces;
    SpacesInOrder(pages, coll);
    var ss := Spaces(pages, coll);
    forall i, j | 0 <= i < j < |ss|
      ensures TreeOrder(coll)(ToFacet()(ss[i]), ToFacet()(ss[j]))
    {
      assert Precedes(ss[i], ss[j], coll);
    }
  }

  lemma FacetsOrdered(docs: seq<Doc>, coll: Collation)
    requires coll.Lawful() && UnfiledLast(Facets(docs, coll))
    ensures Strict(Facets(docs, coll), TreeOrder(coll))
  {
    hide Facets, DistinctBy;
    FacetsArePartition(docs, coll);
  }

  lemma TreeAsymmetric(coll: Collation)
    requires coll.Lawful()
    ensures forall a, b :: TreeOrder(coll)(a, b) ==> !TreeOrder(coll)(b, a)
  {
    forall a: Facet, b: Facet | TreeOrder(coll)(a, b)
      ensures !TreeOrder(coll)(b, a)
    {
      assert coll.compare(a.value, b.value) < 0 ==> coll.compare(b.value, a.value) > 0;
    }
  }

  lemma SameBag(docs: seq<Doc>, lower: string -> string, coll: Collation)
    requires AllSameName(docs)
    ensures multiset(Map(ToFacet(), Spaces(Map(ToPage(lower), docs), coll))) == multiset(Facets(docs, coll))
  {
    hide Group, Sort, Filter, Tally, AllSameName;
    var us := Unsorted(Map(ToPage(lower), docs), coll);
    SameGroups(docs, lower);
    TallyIsGroupSizes(docs);
    assert Map(ToFacet(), us) == Tally(docs);
    MapSortBag(ToFacet(), us, SpaceOrder(coll));
  }

  lemma {:induction false} PagesNamed(docs: seq<Doc>, lower: string -> string, name: string)
    ensures |Filter(Named(PageKey(), name), Map(ToPage(lower), docs))| == |Filter(Splits(name), docs)|
  {
    if docs == [] {
    } else {
      hide SplitSlug;
      PagesNamed(docs[1..], lower, name);
      assert Map(ToPage(lower), docs)[1..] == Map(ToPage(lower), docs[1..]);
    }
  }

  function Splits(name: string): Doc -> bool { (d: Doc) => SplitSlug(d.slug).0 == name }

  /** Equal counts under a name other than `unfiled` mean that the same documents carry it. */
  lemma EqualCounts(docs: seq<Doc>, name: string, d: Doc)
    requires name != UNFILED && d in docs && SpaceKey(d.slug) == name
    requires |Filter(Splits(name), docs)| == |Filter(BySpace(Some(name)), docs)|
    ensures SameName(d)
  {
    hide Filter, SpaceKey, SplitSlug;
    forall x: Doc | Splits(name)(x)
      ensures BySpace(Some(name))(x)
    {
      SameNameExactly(x);
    }
    FilterTight(Splits(name), BySpace(Some(name)), docs);
    assert BySpace(Some(name))(d);
    assert Splits(name)(d);
  }

  lemma FacetOfDoc(docs: seq<Doc>, coll: Collation, d: Doc) returns (k: nat)
    requires d in docs
    ensures k < |Facets(docs, coll)| && Facets(docs, coll)[k].value == SpaceKey(d.slug)
  {
    hide Group, SpaceKey, Filter;
    TallyIsGroupSizes(docs);
    GroupGathers(docs, DocKey());
    var at := Place(Group(docs, DocKey()), NameIn(), DocKey()(d));
    var f := Tally(docs)[at];
    Members(Facets(docs, coll), Tally(docs));
    assert f in Facets(docs, coll);
    k :| 0 <= k < |Facets(docs, coll)| && Facets(docs, coll)[k] == f;
  }

  lemma SpaceSize(s: Space, pages: seq<TreePage>, coll: Collation)
    requires Holds(s, pages, coll)
    ensures |s.pages| == |Filter(Named(PageKey(), s.name), pages)|
  {
    hide Filter;
    SameSize(s.pages, Filter(Named(PageKey(), s.name), pages));
  }

  lemma AgreementNames(docs: seq<Doc>, lower: string -> string, coll: Collation, d: Doc)
    requires coll.Lawful() && d in docs
    requires Map(ToFacet(), Spaces(Map(ToPage(lower), docs), coll)) == Facets(docs, coll)
    ensures SameName(d)
  {
    hide Facets, Spaces, Holds, Filter, SpaceKey, SplitSlug, DistinctBy, SumOf, SameName;
    SameNameExactly(d);
    var name := SpaceKey(d.slug);
    if name != UNFILED {
      var pages := Map(ToPage(lower), docs);
      var k := FacetOfDoc(docs, coll, d);
      var s := Spaces(pages, coll)[k];
      assert ToFacet()(s) == Facets(docs, coll)[k];
      SpacesPartition(pages, coll);
      SpaceSize(s, pages, coll);
      PagesNamed(docs, lower, name);
      FacetMeaning(docs, coll, Facets(docs, coll)[k]);
      EqualCounts(docs, name, d);
    }
  }

  /** How many documents a space has. */
  function SpaceCount(docs: seq<Doc>, name: string): nat {
    |Filter(BySpace(Some(name)), docs)|
  }

  /** Every other space is larger than the unfiled one, or as large and before it by name. */
  ghost predicate UnfiledSmallest(docs: seq<Doc>, coll: Collation) {
    forall u, d ::
      && u in docs && SpaceKey(u.slug) == UNFILED
      && d in docs && SpaceKey(d.slug) != UNFILED ==>
      var m, n := SpaceCount(docs, SpaceKey(d.slug)), SpaceCount(docs, UNFILED);
      m > n || (m == n && coll.compare(SpaceKey(d.slug), UNFILED) < 0)
  }

  lemma FacetHasDoc(docs: seq<Doc>, coll: Collation, f: Facet) returns (d: Doc)
    requires f in Facets(docs, coll)
    ensures d in docs && SpaceKey(d.slug) == f.value && f.count == SpaceCount(docs, f.value)
  {
    hide Facets, SpaceKey, Filter;
    FacetMeaning(docs, coll, f);
    var own := Filter(BySpace(Some(f.value)), docs);
    d := own[0];
    assert d in own;
  }

  lemma UnfiledLastExactly(docs: seq<Doc>, coll: Collation)
    requires coll.Lawful()
    ensures UnfiledLast(Facets(docs, coll)) <==> UnfiledSmallest(docs, coll)
  {
    hide Facets, SpaceKey, SpaceCount, DistinctBy, SumOf;
    var fs := Facets(docs, coll);
    FacetsArePartition(docs, coll);
    if UnfiledLast(fs) {
      forall u, d | u in docs && SpaceKey(u.slug) == UNFILED && d in docs && SpaceKey(d.slug) != UNFILED
        ensures var m, n := SpaceCount(docs, SpaceKey(d.slug)), SpaceCount(docs, UNFILED);
          m > n || (m == n && coll.compare(SpaceKey(d.slug), UNFILED) < 0)
      {
        var i := FacetOfDoc(docs, coll, u);
        var j := FacetOfDoc(docs, coll, d);
        var u' := FacetHasDoc(docs, coll, fs[i]);
        var d' := FacetHasDoc(docs, coll, fs[j]);
        assert j < i;
      }
    } else {
      var i :| 0 <= i < |fs| - 1 && fs[i].value == UNFILED;
      var u := FacetHasDoc(docs, coll, fs[i]);
      var d := FacetHasDoc(docs, coll, fs[i + 1]);
      UnfiledOnce(docs, coll, i);
      assert coll.compare(UNFILED, fs[i + 1].value) < 0 ==> coll.compare(fs[i + 1].value, UNFILED) > 0;
    }
  }

  lemma UnfiledOnce(docs: seq<Doc>, coll: Collation, i: nat)
    requires coll.Lawful() && i + 1 < |Facets(docs, coll)|
    ensures Facets(docs, coll)[i].value != Facets(docs, coll)[i + 1].value
  {
    hide Facets, SumOf;
    FacetsArePartition(docs, coll);
    var fs := Facets(docs, coll);
    assert ValueIn()(fs[i]) != ValueIn()(fs[i + 1]);
  }

  /** The facets of the directory and the spaces of the tree are the same names and counts in the
      same order exactly when every slug has a name before its first slash (or is `unfiled`
      itself), and every other space is larger than the unfiled one, or as large and before it by
      name. */
  lemma DirectoriesAgree(docs: seq<Doc>, lower: string -> string, coll: Collation)
    requires coll.Lawful()
    ensures Map(ToFacet(), Spaces(Map(ToPage(lower), docs), coll)) == Facets(docs, coll) <==>
            && (forall d :: d in docs ==> IndexOf(d.slug, "/", 0) > 0 || d.slug == UNFILED)
            && UnfiledSmallest(docs, coll)
  {
    hide Facets, Spaces, SameName, IndexOf, UnfiledSmallest;
    UnfiledLastExactly(docs, coll);
    var tree := Map(ToFacet(), Spaces(Map(ToPage(lower), docs), coll));
    TreeOrdered(Map(ToPage(lower), docs), coll);
    forall d | d in docs
      ensures SameName(d) <==> IndexOf(d.slug, "/", 0) > 0 || d.slug == UNFILED
    {
      SameNameExactly(d);
    }
    if tree == Facets(docs, coll) {
      forall d | d in docs
        ensures SameName(d)
      {
        AgreementNames(docs, lower, coll, d);
      }
      forall i | 0 <= i < |tree| - 1
        ensures tree[i].value != UNFILED
      {
        assert TreeOrder(coll)(tree[i], tree[i + 1]);
      }
      assert UnfiledLast(Facets(docs, coll));
    } else if AllSameName(docs) && UnfiledLast(Facets(docs, coll)) {
      SameBag(docs, lower, coll);
      FacetsOrdered(docs, coll);
      TreeAsymmetric(coll);
      StrictUnique(tree, Facets(docs, coll), TreeOrder(coll));
      assert false;
    }
  }

  /** In particular they agree on a corpus in which every slug is filed under some other name. */
  lemma FiledCorporaAgree(docs: seq<Doc>, lower: string -> string, coll: Collation)
    requires coll.Lawful()
    requires forall d :: d in docs ==> IndexOf(d.slug, "/", 0) > 0 && SpaceKey(d.slug) != UNFILED
    ensures Map(ToFacet(), Spaces(Map(ToPage(lower), docs), coll)) == Facets(docs, coll)
  {
    hide Facets, Spaces, IndexOf, SpaceKey, SpaceCount;
    DirectoriesAgree(docs, lower, coll);
  }

  // ---- corpora on which they differ ---------------------------------------------------

  ghost predicate Differ(docs: seq<Doc>) {
    forall lower: string -> string, coll: Collation ::
      coll.Lawful() ==> Map(ToFacet(), Spaces(Map(ToPage(lower), docs), coll)) != Facets(docs, coll)
  }

  function DocAt(slug: string): Doc {
    Doc(slug, slug, slug, false, false)
  }

  /** A slug that the directory files under another name than the tree. */
  lemma SlugDiffers(slug: string)
    requires IndexOf(slug, "/", 0) <= 0 && slug != UNFILED
    ensures Differ([DocAt(slug)])
  {
    hide Facets, Spaces, IndexOf, UnfiledSmallest;
    forall lower: string -> string, coll: Collation | coll.Lawful()
      ensures Map(ToFacet(), Spaces(Map(ToPage(lower), [DocAt(slug)]), coll)) != Facets([DocAt(slug)], coll)
    {
      assert DocAt(slug) in [DocAt(slug)];
      DirectoriesAgree([DocAt(slug)], lower, coll);
    }
  }

  /** One page without a slash, one page that starts with one, and a filed corpus with a large
      `unfiled` space: on each the two directories differ. */
  lemma DirectoriesDiffer()
    ensures Differ([DocAt("a")])
    ensures Differ([DocAt("/a")])
    ensures Differ([DocAt("unfiled/a"), DocAt("unfiled/b"), DocAt("z/a")])
  {
    hide Differ;
    hide IndexOf;
    assert "a"[0..1] == ['a'] && "/a"[0..1] == "/";
    assert "/"[0] == '/' && !OccursAt("a", "/", 0) && OccursAt("/a", "/", 0);
    SlugDiffers("a");
    SlugDiffers("/a");
    LargeUnfiledDiffers();
  }

  lemma KeyOf(key: string, slug: string)
    requires IsSpaceOf(key, slug)
    ensures SpaceKey(slug) == key
  {
    SpaceKeyExactly(slug, key);
  }

  lemma LargeUnfiledDiffers()
    ensures Differ([DocAt("unfiled/a"), DocAt("unfiled/b"), DocAt("z/a")])
  {
    hide Facets, Spaces, IndexOf, SpaceKey, Filter;
    var a, b, c := DocAt("unfiled/a"), DocAt("unfiled/b"), DocAt("z/a");
    var docs := [a, b, c];
    KeyOf(UNFILED, a.slug);
    KeyOf(UNFILED, b.slug);
    KeyOf("z", c.slug);
    CountsOfThree(a, b, c, UNFILED);
    CountsOfThree(a, b, c, "z");
    assert docs[0] == a && docs[2] == c;
    assert a in docs && c in docs;
    forall lower: string -> string, coll: Collation | coll.Lawful()
      ensures Map(ToFacet(), Spaces(Map(ToPage(lower), docs), coll)) != Facets(docs, coll)
    {
      assert !UnfiledSmallest(docs, coll);
      DirectoriesAgree(docs, lower, coll);
    }
  }

  lemma CountsOfThree(a: Doc, b: Doc, c: Doc, name: string)
    ensures SpaceCount([a, b, c], name) ==
      (if SpaceKey(a.slug) == name then 1 else 0) + (if SpaceKey(b.slug) == name then 1 else 0)
      + (if SpaceKey(c.slug) == name then 1 else 0)
  {
    hide SpaceKey, Filter;
    var p := BySpace(Some(name));
    FilterNil(p);
    FilterMore(p, [], a);
    FilterMore(p, [a], b);
    FilterMore(p, [a, b], c);
    assert [] + [a] == [a] && [a] + [b] == [a, b] && [a, b] + [c] == [a, b, c];
  }
}
