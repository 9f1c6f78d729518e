/**
 The wiki's URL and the console address: what of a wiki view survives being written as an
 address link.
 */
module DocsAddress {
  import opened Text
  import opened Options
  import opened Numbers
  import opened Query
  import opened Address
  import opened Directory
  import opened Navigation

  /** The parameters of the link that the address of a URL is written as. */
  function Relinked(list: seq<Pair>, utf8: Utf8): seq<Pair>
    requires utf8.Lawful()
  {
    ParseQuery(QueryOf(Encode(Decode(Bag(list)), utf8)), utf8)
  }

  lemma RelinkedPairs(list: seq<Pair>, utf8: Utf8)
    requires utf8.Lawful()
    ensures var a := Decode(Bag(list)); Relinked(list, utf8) == PairsFor(a, Names(a.m))
  {
    hide Decode, Bag, PairsFor, Names, Serialize, ParseQuery, QueryOf;
    var a := Decode(Bag(list));
    QueryOfEncoded(Serialize(PairsFor(a, Names(a.m)), utf8));
    QueryRoundTrip(PairsFor(a, Names(a.m)), utf8);
  }

  /** The docs module declares the search and the page, and neither the space nor the tab. */
  lemma DocsDeclares()
    ensures "q" in Names(Docs) && "page" in Names(Docs) && "space" !in Names(Docs) && "tab" !in Names(Docs)
  {
    var names := ["m", "view", "sel", "as_of", "q", "topic", "status", "page"];
    assert Names(Docs) == names;
    assert names[4] == "q" && names[7] == "page";
  }

  lemma DocsDecoded(list: seq<Pair>)
    requires First(list, "m") == Some("docs")
    ensures Decode(Bag(list)).m == Docs
  {
    hide Bag, First, ParseModule;
    BagFirst(list, "m");
    SegmentRead(Docs);
  }

  /** What a docs link holds under a name that the wiki reads. */
  lemma RelinkedFirst(list: seq<Pair>, utf8: Utf8, name: string)
    requires utf8.Lawful() && First(list, "m") == Some("docs") && name in {"space", "tab", "q", "page"}
    ensures First(Relinked(list, utf8), name) ==
            if name == "q" || name == "page" then NonEmpty(First(list, name)) else None
  {
    hide Bag, First, FirstOf, PairsFor, Relinked, ParseModule;
    DocsDecoded(list);
    DocsDeclares();
    RelinkedPairs(list, utf8);
    var a := Decode(Bag(list));
    PairsForFirst(a, Names(Docs), name);
    BagFirst(list, name);
    if name in Names(Docs) {
      assert name in Spec(Docs);
    }
  }

  /** Written as an address and opened again, a wiki URL keeps its search and its page and loses its
      space and its tab; so it shows the same view exactly when it had neither. */
  lemma AddressForgets(list: seq<Pair>, utf8: Utf8, read: Reader)
    requires utf8.Lawful() && First(list, "m") == Some("docs") && PageNamed(Some(""), read) == At(0)
    ensures var back := Relinked(list, utf8);
      && Shown(back, read) ==
           View(Narrowing(None, AllTab, Search(First(list, "q"))), PageNamed(First(list, "page"), read))
      && (Shown(back, read) == Shown(list, read) <==>
            First(list, "space").None? && TabNamed(First(list, "tab")) == AllTab)
  {
    hide First, Relinked, Trim, Shown;
    ShownByFirst(list, read);
    ShownByFirst(Relinked(list, utf8), read);
    RelinkedFirst(list, utf8, "space");
    RelinkedFirst(list, utf8, "tab");
    RelinkedFirst(list, utf8, "q");
    RelinkedFirst(list, utf8, "page");
    NoSearch();
  }

  lemma NoSearch()
    ensures Search(Some("")) == None
  {
  }

  /** For one: the space of `?m=docs&space=x` is gone. */
  lemma SpaceForgotten(utf8: Utf8, read: Reader)
    requires utf8.Lawful() && PageNamed(Some(""), read) == At(0)
    ensures var list := [("m", "docs"), ("space", "x")];
      && Shown(list, read).narrowing.space == Some("x")
      && Shown(Relinked(list, utf8), read).narrowing.space == None
  {
    hide Relinked, Shown;
    var list := [("m", "docs"), ("space", "x")];
    assert list[1..] == [("space", "x")];
    assert First(list, "m") == Some("docs") && First(list, "space") == Some("x");
    ShownByFirst(list, read);
    AddressForgets(list, utf8, read);
  }

  /** For another: the tab of `?m=docs&tab=review` is gone. */
  lemma TabForgotten(utf8: Utf8, read: Reader)
    requires utf8.Lawful() && PageNamed(Some(""), read) == At(0)
    ensures var list := [("m", "docs"), ("tab", "review")];
      && Shown(list, read).narrowing.tab == ReviewTab
      && Shown(Relinked(list, utf8), read).narrowing.tab == AllTab
  {
    hide Relinked, Shown;
    var list := [("m", "docs"), ("tab", "review")];
    assert list[1..] == [("tab", "review")];
    assert First(list, "m") == Some("docs") && First(list, "tab") == Some("review");
    ShownByFirst(list, read);
    AddressForgets(list, utf8, read);
  }
}
