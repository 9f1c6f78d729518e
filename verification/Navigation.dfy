/**
 The wiki's navigation: each step copies the URL's parameters, changes them and goes there;
 what the page then shows is read from the URL alone.
 */
module Navigation {
  import opened Text
  import opened Options
  import opened Numbers
  import opened Query
  import opened Sorting
  import opened Directory

  datatype View = View(narrowing: Narrowing, page: PageIndex)

  // ---- reading a URL ------------------------------------------------------------------

  function TabNamed(raw: Option<string>): Tab {
    if raw == Some("review") then ReviewTab else if raw == Some("dirty") then DirtyTab else AllTab
  }

  /** `Math.max(0, Math.floor(Number(raw) || 0))`. */
  function PageNamed(raw: Option<string>, read: Reader): PageIndex {
    match raw
    case None => At(0)
    case Some(s) =>
      match read(s)
      case NaN => At(0)
      case Infinity(positive) => if positive then Beyond else At(0)
      case Finite(x) => if x.Floor < 0 then At(0) else At(x.Floor)
  }

  function Search(raw: Option<string>): Option<string> {
    match raw
    case None => None
    case Some(s) => if Trim(s) == "" then None else Some(Trim(s))
  }

  /** `parseWiki`: the space is there as soon as the name is, even with no value to it. */
  function ParseWiki(params: Params, read: Reader): View {
    var space := if "space" in params then
        match FirstOf(params, "space") {
          case Some(v) => Some(v)
          case None => Some("")
        }
      else None;
    View(Narrowing(space, TabNamed(FirstOf(params, "tab")), Search(FirstOf(params, "q"))),
         PageNamed(FirstOf(params, "page"), read))
  }

  // ---- taking a step ------------------------------------------------------------------

  datatype Move =
    | PickTab(tab: Tab)
    | PickSpace(value: string)
    | ClearSpace
    | GotoPage(n: int)
    | OnSearch(v: string)

  function TabName(tab: Tab): string {
    match tab
    case AllTab => "all"
    case ReviewTab => "review"
    case DirtyTab => "dirty"
  }

  /** What a reader means by a move. */
  function Apply(move: Move, view: View): View {
    var n := view.narrowing;
    match move
    case PickTab(t) => View(n.(tab := t), At(0))
    case PickSpace(v) => View(n.(space := if n.space == Some(v) then None else Some(v)), At(0))
    case ClearSpace => View(n.(space := None), At(0))
    case GotoPage(k) => View(n, At(if k <= 0 then 0 else k))
    case OnSearch(v) => View(n.(q := if Trim(v) == "" then None else Some(Trim(v))), At(0))
  }

  /** The parameters after a move. */
  function Moved(list: seq<Pair>, move: Move, space: Option<string>, read: Reader): seq<Pair> {
    var p := With(list, "m", "docs");
    match move
    case PickTab(t) => Without(if t == AllTab then Without(p, "tab") else With(p, "tab", TabName(t)), "page")
    case PickSpace(v) => Without(if space == Some(v) then Without(p, "space") else With(p, "space", v), "page")
    case ClearSpace => Without(Without(p, "space"), "page")
    case GotoPage(n) => if n <= 0 then Without(p, "page") else With(p, "page", Decimal(n))
    case OnSearch(v) => Without(if Trim(v) == "" then Without(p, "q") else With(p, "q", Trim(v)), "page")
  }

  /** The view that a list of parameters shows. */
  function Shown(list: seq<Pair>, read: Reader): View {
    ParseWiki(Bag(list), read)
  }

  /** The wiki over the query string of its URL. */
  class DocWiki {
    var query: string
    const utf8: Utf8
    const read: Reader

    constructor (query: string, utf8: Utf8, read: Reader)
      ensures this.query == query && this.utf8 == utf8 && this.read == read
    {
      this.query := query;
      this.utf8 := utf8;
      this.read := read;
    }

    function List(): seq<Pair>
      reads this
    {
      ParseQuery(query, utf8)
    }

    /** One move: copy the parameters, change the copy in place, and go to the new URL. */
    method Go(move: Move)
      requires utf8.Lawful()
      modifies this
      ensures List() == Moved(old(List()), move, Shown(old(List()), read).narrowing.space, read)
      ensures ReadsDecimals(read) ==> Shown(List(), read) == Apply(move, Shown(old(List()), read))
    {
      hide Shown, ParseQuery, Serialize, With, Without, Values, Trim;
      ghost var before := List();
      var space := Shown(List(), read).narrowing.space;
      var p := new UrlSearchParams(List());
      p.Set("m", "docs");
      var resetPage := true;
      match move {
        case PickTab(t) =>
          if t == AllTab {
            p.Delete("tab");
          } else {
            p.Set("tab", TabName(t));
          }
        case PickSpace(v) =>
          if space == Some(v) {
            p.Delete("space");
          } else {
            p.Set("space", v);
          }
        case ClearSpace =>
          p.Delete("space");
        case GotoPage(n) =>
          resetPage := false;
          if n <= 0 {
            p.Delete("page");
          } else {
            p.Set("page", Decimal(n));
          }
        case OnSearch(v) =>
          var t := Trim(v);
          if t != "" {
            p.Set("q", t);
          } else {
            p.Delete("q");
          }
      }
      if resetPage {
        p.Delete("page");
      }
      QueryRoundTrip(p.list, utf8);
      query := Serialize(p.list, utf8);
      if ReadsDecimals(read) {
        MoveShown(before, move, read);
      }
    }
  }

  /** A reader's run of moves, one navigation after the other. */
  method Browse(wiki: DocWiki, moves: seq<Move>)
    requires wiki.utf8.Lawful()
    modifies wiki
    ensures wiki.List() == Run(old(wiki.List()), moves, wiki.read)
    ensures ReadsDecimals(wiki.read) ==>
      Shown(wiki.List(), wiki.read) == ApplyAll(moves, Shown(old(wiki.List()), wiki.read))
  {
    hide Shown, Moved, Apply, ParseQuery;
    ghost var start := wiki.List();
    for i := 0 to |moves|
      invariant Run(start, moves, wiki.read) == Run(wiki.List(), moves[i..], wiki.read)
    {
      wiki.Go(moves[i]);
      assert moves[i..][0] == moves[i] && moves[i..][1..] == moves[i + 1..];
    }
    assert moves[|moves|..] == [];
    if ReadsDecimals(wiki.read) {
      RunShown(start, moves, wiki.read);
    }
  }

  // ---- the URL keeps up with the reader -----------------------------------------------

  /** A view depends on the first values of four names only. */
  lemma ShownByFirst(list: seq<Pair>, read: Reader)
    ensures Shown(list, read) ==
      View(Narrowing(First(list, "space"), TabNamed(First(list, "tab")), Search(First(list, "q"))),
           PageNamed(First(list, "page"), read))
  {
    hide Bag, FirstOf, First, Trim;
    BagFirst(list, "space");
    BagFirst(list, "tab");
    BagFirst(list, "q");
    BagFirst(list, "page");
    BagHas(list, "space");
  }

  lemma BagHas(list: seq<Pair>, name: string)
    ensures name in Bag(list) <==> First(list, name).Some?
  {
    hide First, Values;
    FirstValue(list, name);
  }

  lemma MovedFirst(list: seq<Pair>, move: Move, space: Option<string>, read: Reader, name: string)
    requires name in {"space", "tab", "q", "page"}
    ensures First(Moved(list, move, space, read), name) ==
      match move {
        case PickTab(t) =>
          if name == "page" then None else if name != "tab" then First(list, name)
          else if t == AllTab then None else Some(TabName(t))
        case PickSpace(v) =>
          if name == "page" then None else if name != "space" then First(list, name)
          else if space == Some(v) then None else Some(v)
        case ClearSpace => if name == "page" || name == "space" then None else First(list, name)
        case GotoPage(n) => if name != "page" then First(list, name) else if n <= 0 then None else Some(Decimal(n))
        case OnSearch(v) =>
          if name == "page" then None else if name != "q" then First(list, name)
          else if Trim(v) == "" then None else Some(Trim(v))
      }
  {
    hide First, With, Without, Trim;
    var p := With(list, "m", "docs");
    WithFirst(list, "m", "docs", name);
    match move {
      case PickTab(t) =>
        WithoutFirst(p, "tab", name);
        WithFirst(p, "tab", TabName(t), name);
        WithoutFirst(if t == AllTab then Without(p, "tab") else With(p, "tab", TabName(t)), "page", name);
      case PickSpace(v) =>
        WithoutFirst(p, "space", name);
        WithFirst(p, "space", v, name);
        WithoutFirst(if space == Some(v) then Without(p, "space") else With(p, "space", v), "page", name);
      case ClearSpace =>
        WithoutFirst(p, "space", name);
        WithoutFirst(Without(p, "space"), "page", name);
      case GotoPage(n) =>
        WithoutFirst(p, "page", name);
        if n > 0 {
          WithFirst(p, "page", Decimal(n), name);
        }
      case OnSearch(v) =>
        WithoutFirst(p, "q", name);
        WithFirst(p, "q", Trim(v), name);
        WithoutFirst(if Trim(v) == "" then Without(p, "q") else With(p, "q", Trim(v)), "page", name);
    }
  }

  /** A move goes to the docs module and leaves alone every parameter that is not the wiki's. */
  lemma MovedKeeps(list: seq<Pair>, move: Move, space: Option<string>, read: Reader, name: string)
    ensures First(Moved(list, move, space, read), "m") == Some("docs")
    ensures name !in {"m", "space", "tab", "q", "page"} ==>
            First(Moved(list, move, space, read), name) == First(list, name)
  {
    MovedOther(list, move, space, read, "m");
    WithFirst(list, "m", "docs", "m");
    if name !in {"m", "space", "tab", "q", "page"} {
      MovedOther(list, move, space, read, name);
      WithFirst(list, "m", "docs", name);
    }
  }

  lemma MovedOther(list: seq<Pair>, move: Move, space: Option<string>, read: Reader, name: string)
    requires name !in {"space", "tab", "q", "page"}
    ensures First(Moved(list, move, space, read), name) == First(With(list, "m", "docs"), name)
  {
    hide First, With, Without, Trim;
    var p := With(list, "m", "docs");
    match move {
      case PickTab(t) =>
        WithoutFirst(p, "tab", name);
        WithFirst(p, "tab", TabName(t), name);
        WithoutFirst(if t == AllTab then Without(p, "tab") else With(p, "tab", TabName(t)), "page", name);
      case PickSpace(v) =>
        WithoutFirst(p, "space", name);
        WithFirst(p, "space", v, name);
        WithoutFirst(if space == Some(v) then Without(p, "space") else With(p, "space", v), "page", name);
      case ClearSpace =>
        WithoutFirst(p, "space", name);
        WithoutFirst(Without(p, "space"), "page", name);
      case GotoPage(n) =>
        WithoutFirst(p, "page", name);
        if n > 0 {
          WithFirst(p, "page", Decimal(n), name);
        }
      case OnSearch(v) =>
        WithoutFirst(p, "q", name);
        WithFirst(p, "q", Trim(v), name);
        WithoutFirst(if Trim(v) == "" then Without(p, "q") else With(p, "q", Trim(v)), "page", name);
    }
  }

  /** What the tab, the search and the page of a URL are read as. */
  lemma ViewExactly(list: seq<Pair>, read: Reader)
    ensures var view := Shown(list, read);
      && view.narrowing.space == First(list, "space")
      && (view.narrowing.tab == ReviewTab <==> First(list, "tab") == Some("review"))
      && (view.narrowing.tab == DirtyTab <==> First(list, "tab") == Some("dirty"))
      && (match First(list, "q") {
            case None => view.narrowing.q == None
            case Some(v) => view.narrowing.q == if Trim(v) == "" then None else Some(Trim(v))
          })
      && (match First(list, "page") {
            case None => view.page == At(0)
            case Some(v) =>
              match read(v)
              case NaN => view.page == At(0)
              case Infinity(positive) => view.page == if positive then Beyond else At(0)
              case Finite(x) =>
                view.page.At? && view.page.n >= 0
                && (x < 1.0 ==> view.page.n == 0)
                && (x >= 1.0 ==> view.page.n as real <= x < view.page.n as real + 1.0)
          })
  {
    hide First, Trim, Shown;
    ShownByFirst(list, read);
  }

  lemma TabsNamed(t: Tab)
    ensures TabNamed(if t == AllTab then None else Some(TabName(t))) == t
  {
  }

  /** After a move the URL shows what the reader meant, whatever it showed before. */
  lemma MoveShown(list: seq<Pair>, move: Move, read: Reader)
    requires ReadsDecimals(read)
    ensures var view := Shown(list, read);
      Shown(Moved(list, move, view.narrowing.space, read), read) == Apply(move, view)
  {
    hide Shown, Moved, First, Trim;
    var space := Shown(list, read).narrowing.space;
    var moved := Moved(list, move, space, read);
    ShownByFirst(list, read);
    ShownByFirst(moved, read);
    MovedFirst(list, move, space, read, "space");
    MovedFirst(list, move, space, read, "tab");
    MovedFirst(list, move, space, read, "q");
    MovedFirst(list, move, space, read, "page");
    match move {
      case PickTab(t) => TabsNamed(t);
      case OnSearch(v) => TrimTwice(v);
      case GotoPage(n) => if n > 0 {
        assert read(Decimal(n)) == Finite(n as real);
      }
      case _ =>
    }
  }

  /** The parameters after a run of moves. */
  function Run(list: seq<Pair>, moves: seq<Move>, read: Reader): seq<Pair>
    decreases |moves|
  {
    if moves == [] then list
    else Run(Moved(list, moves[0], Shown(list, read).narrowing.space, read), moves[1..], read)
  }

  function ApplyAll(moves: seq<Move>, view: View): View
    decreases |moves|
  {
    if moves == [] then view else ApplyAll(moves[1..], Apply(moves[0], view))
  }

  /** After any run of moves from any URL, the URL shows the moves folded over what it showed. */
  lemma {:induction false} RunShown(list: seq<Pair>, moves: seq<Move>, read: Reader)
    requires ReadsDecimals(read)
    ensures Shown(Run(list, moves, read), read) == ApplyAll(moves, Shown(list, read))
    decreases |moves|
  {
    hide Shown, Moved, Apply;
    if moves == [] {
    } else {
      MoveShown(list, moves[0], read);
      RunShown(Moved(list, moves[0], Shown(list, read).narrowing.space, read), moves[1..], read);
    }
  }

  /** Picking a space twice from the directory closes it again, and the space of slugs that start
      with a slash can be opened: it is a space like any other. */
  lemma SpaceToggles(list: seq<Pair>, v: string, read: Reader)
    requires ReadsDecimals(read)
    ensures var view := Shown(list, read);
      var once, twice := Shown(Run(list, [PickSpace(v)], read), read),
                         Shown(Run(list, [PickSpace(v), PickSpace(v)], read), read);
      && (view.narrowing.space != Some(v) ==> once.narrowing.space == Some(v) && twice.narrowing.space == None)
      && (view.narrowing.space == Some(v) ==> once.narrowing.space == None && twice.narrowing.space == Some(v))
      && once.page == twice.page == At(0)
  {
    hide Shown, Run;
    RunShown(list, [PickSpace(v)], read);
    RunShown(list, [PickSpace(v), PickSpace(v)], read);
    assert [PickSpace(v), PickSpace(v)][1..] == [PickSpace(v)] && [PickSpace(v)][1..] == [];
    Folded(PickSpace(v), Shown(list, read));
  }

  lemma Folded(move: Move, view: View)
    ensures ApplyAll([move], view) == Apply(move, view)
    ensures ApplyAll([move, move], view) == Apply(move, Apply(move, view))
  {
    hide Apply;
    assert [move, move][1..] == [move] && [move][1..] == [];
    assert ApplyAll([move], Apply(move, view)) == ApplyAll([], Apply(move, Apply(move, view)));
  }

  /** After a run, the wiki page that the URL opens is the one that the reader's folded choice
      opens: the documents shown are the stretch of the matches that "showing a to b of total" names. */
  lemma RunOpens(list: seq<Pair>, moves: seq<Move>, read: Reader,
                 docs: seq<Doc>, pageSize: nat, lower: string -> string, coll: Collation)
    requires ReadsDecimals(read) && pageSize >= 1
    ensures var url := Shown(Run(list, moves, read), read);
      var meant := ApplyAll(moves, Shown(list, read));
      var d := WikiPage(docs, url.narrowing, url.page, pageSize, lower, coll);
      var m := Matched(docs, meant.narrowing, lower);
      var start := Begin(d.page, pageSize);
      && d.narrowing == meant.narrowing
      && d.total == |m|
      && (d.documents == [] <==> m == [])
      && (m != [] ==> start + |d.documents| <= |m| && d.documents == m[start..start + |d.documents|])
      && (meant.page.At? && 0 <= meant.page.n < PageCount(|m|, pageSize) ==> d.page == meant.page.n)
  {
    hide Shown, Run, ApplyAll, Matched, Facets, Slice, SafePage, PageCount, CountsOf, Begin;
    RunShown(list, moves, read);
    var meant := ApplyAll(moves, Shown(list, read));
    PageShown(docs, meant.narrowing, meant.page, pageSize, lower, coll);
  }
}
