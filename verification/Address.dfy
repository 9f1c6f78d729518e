/**
 The console address: a module, its view, its selection and its filters, printed as a query
 string and read back.
 */
module Address {
  import opened Text
  import opened Options
  import opened Query

  datatype Module =
    | Analytics | Memories | Disputes | Graph | Ingest | Health | Docs | Reviews | Audit
    | Divergence | Standards | Skills | Projects | Keys

  function Segment(m: Module): string {
    match m
    case Analytics => "analytics"
    case Memories => "memories"
    case Disputes => "disputes"
    case Graph => "graph"
    case Ingest => "ingest"
    case Health => "health"
    case Docs => "docs"
    case Reviews => "reviews"
    case Audit => "audit"
    case Divergence => "divergence"
    case Standards => "standards"
    case Skills => "skills"
    case Projects => "projects"
    case Keys => "keys"
  }

  /** The modules in navigation order. */
  const ROUTES: seq<Module> :=
    [Analytics, Memories, Disputes, Graph, Ingest, Health, Docs, Reviews, Audit,
     Divergence, Standards, Skills, Projects, Keys]

  const DEFAULT_MODULE := Analytics

  /** The filters each module declares. */
  function Spec(m: Module): seq<string> {
    match m
    case Reviews => ["cstatus", "poffset"]
    case Disputes => ["kind", "team", "project", "band", "minClaims", "minAge", "page"]
    case Memories => ["q", "kind", "status", "team", "project", "visibility", "page", "sort", "dir"]
    case Docs => ["q", "topic", "status", "page"]
    case Audit => ["kind", "offset"]
    case Standards => ["stack", "category", "lifecycle"]
    case _ => []
  }

  datatype Address = Address(
    m: Module,
    view: Option<string>,
    sel: Option<string>,
    asOf: Option<string>,
    filters: map<string, string>)

  function FindSegment(routes: seq<Module>, v: string): Option<Module> {
    if routes == [] then None
    else if Segment(routes[0]) == v then Some(routes[0])
    else FindSegment(routes[1..], v)
  }

  /** The module named by `?m=`, or the default one. */
  function ParseModule(raw: Option<string>): Module {
    match raw
    case None => DEFAULT_MODULE
    case Some(v) =>
      match FindSegment(ROUTES, v)
      case Some(m) => m
      case None => DEFAULT_MODULE
  }

  function NonEmpty(v: Option<string>): Option<string> {
    if v == Some("") then None else v
  }

  /** `one`: the first value, if any and not empty. */
  function OneOf(params: Params, name: string): Option<string> {
    NonEmpty(FirstOf(params, name))
  }

  function ReadFilters(keys: seq<string>, params: Params): (r: map<string, string>)
    ensures r.Keys == set k | k in keys && OneOf(params, k).Some?
    ensures forall k :: k in r ==> Some(r[k]) == OneOf(params, k)
  {
    map k | k in keys && OneOf(params, k).Some? :: OneOf(params, k).value
  }

  function Decode(params: Params): Address {
    var m := ParseModule(FirstOf(params, "m"));
    Address(m, OneOf(params, "view"), OneOf(params, "sel"), OneOf(params, "as_of"), ReadFilters(Spec(m), params))
  }

  /** Read a parameter bag into an address, dropping anything undeclared. */
  method DecodeAddress(params: Params) returns (a: Address)
    ensures a == Decode(params)
  {
    hide Spec, OneOf, FirstOf, ParseModule;
    var m := ParseModule(FirstOf(params, "m"));
    var allowed := Spec(m);
    var filters: map<string, string> := map[];
    for i := 0 to |allowed|
      invariant filters == ReadFilters(allowed[..i], params)
    {
      var v := OneOf(params, allowed[i]);
      if v.Some? {
        filters := filters[allowed[i] := v.value];
      }
      assert allowed[..i + 1] == allowed[..i] + [allowed[i]];
    }
    assert allowed[..|allowed|] == allowed;
    a := Address(m, OneOf(params, "view"), OneOf(params, "sel"), OneOf(params, "as_of"), filters);
  }

  // ---- printing -----------------------------------------------------------------------

  /** The value an address gives a parameter, if it is worth writing. */
  function ValueOf(a: Address, name: string): Option<string> {
    if name == "m" then Some(Segment(a.m))
    else if name == "view" then NonEmpty(a.view)
    else if name == "sel" then NonEmpty(a.sel)
    else if name == "as_of" then NonEmpty(a.asOf)
    else if name in Spec(a.m) && name in a.filters then NonEmpty(Some(a.filters[name]))
    else None
  }

  /** The names an address may use, in the order in which they are written. */
  function Names(m: Module): seq<string> {
    ["m", "view", "sel", "as_of"] + Spec(m)
  }

  function PairsFor(a: Address, names: seq<string>): seq<Pair> {
    if names == [] then []
    else
      var name := names[|names| - 1];
      PairsFor(a, names[..|names| - 1]) + (if ValueOf(a, name).Some? then [(name, ValueOf(a, name).value)] else [])
  }

  const PATH := "/console?"

  /** The address as a link. */
  function Encode(a: Address, utf8: Utf8): string
    requires utf8.Lawful()
  {
    PATH + Serialize(PairsFor(a, Names(a.m)), utf8)
  }

  ghost predicate DistinctNames(names: seq<string>) {
    forall i, j :: 0 <= i < j < |names| ==> names[i] != names[j]
  }

  /** No module declares a filter twice or takes one of the grammar's own names. */
  lemma NamesDistinct(m: Module)
    ensures DistinctNames(Names(m))
  {
    if m == Memories {
      MemoriesNames();
    } else if m == Disputes {
      DisputesNames();
    }
  }

  lemma MemoriesNames()
    ensures DistinctNames(Names(Memories))
  {
  }

  lemma DisputesNames()
    ensures DistinctNames(Names(Disputes))
  {
  }

  lemma {:induction false} PairsForFirst(a: Address, names: seq<string>, name: string)
    ensures First(PairsFor(a, names), name) == if name in names then ValueOf(a, name) else None
  {
    hide ValueOf, First;
    if names == [] {
      assert PairsFor(a, names) == [];
      FirstOfNone(name);
    } else {
      var k := |names| - 1;
      PairsForFirst(a, names[..k], name);
      assert names == names[..k] + [names[k]];
      var last := if ValueOf(a, names[k]).Some? then [(names[k], ValueOf(a, names[k]).value)] else [];
      FirstConcat(PairsFor(a, names[..k]), last, name);
      FirstOfNone(name);
      if ValueOf(a, names[k]).Some? {
        FirstOfSingle((names[k], ValueOf(a, names[k]).value), name);
      }
    }
  }

  lemma FirstOfNone(name: string)
    ensures First([], name) == None
  {
  }

  lemma FirstOfSingle(p: Pair, name: string)
    ensures First([p], name) == if p.0 == name then Some(p.1) else None
  {
    assert [p][1..] == [];
  }

  lemma PairsForMore(a: Address, names: seq<string>, n: nat)
    requires n < |names| && DistinctNames(names)
    ensures var before := PairsFor(a, names[..n]);
      PairsFor(a, names[..n + 1]) ==
        match ValueOf(a, names[n]) {
          case Some(v) => With(before, names[n], v)
          case None => before
        }
  {
    hide ValueOf, With;
    assert names[..n + 1][..n] == names[..n];
    assert names[n] !in names[..n];
    PairsForFirst(a, names[..n], names[n]);
    if ValueOf(a, names[n]).Some? {
      WithNew(PairsFor(a, names[..n]), names[n], ValueOf(a, names[n]).value);
    }
  }

  /** Write an address, one `set` after the other. */
  method EncodeAddress(a: Address, utf8: Utf8) returns (url: string)
    requires utf8.Lawful()
    ensures url == Encode(a, utf8)
  {
    hide Serialize, With, Without, Values, PairsFor, Spec, Segment, Names, ValueOf;
    var names := Names(a.m);
    NamesDistinct(a.m);
    var keys := Spec(a.m);
    OwnValues(a);
    assert names[..0] == [];
    NoPairs(a);
    var p := new UrlSearchParams([]);
    PairsForMore(a, names, 0);
    p.Set("m", Segment(a.m));
    PairsForMore(a, names, 1);
    if a.view.Some? && a.view.value != "" {
      p.Set("view", a.view.value);
    }
    PairsForMore(a, names, 2);
    if a.sel.Some? && a.sel.value != "" {
      p.Set("sel", a.sel.value);
    }
    PairsForMore(a, names, 3);
    if a.asOf.Some? && a.asOf.value != "" {
      p.Set("as_of", a.asOf.value);
    }
    for i := 0 to |keys|
      invariant fresh(p)
      invariant p.list == PairsFor(a, names[..i + 4])
    {
      var key := keys[i];
      PairsForMore(a, names, i + 4);
      FilterName(a, i);
      if key in a.filters && a.filters[key] != "" {
        p.Set(key, a.filters[key]);
      }
    }
    assert names[..|keys| + 4] == names;
    url := PATH + Serialize(p.list, utf8);
  }

  /** What the grammar's own names are written with, and where the filters come. */
  lemma OwnValues(a: Address)
    ensures var names := Names(a.m);
      && |names| == |Spec(a.m)| + 4
      && (names[0] == "m" && ValueOf(a, "m") == Some(Segment(a.m)))
      && (names[1] == "view" && ValueOf(a, "view") == NonEmpty(a.view))
      && (names[2] == "sel" && ValueOf(a, "sel") == NonEmpty(a.sel))
      && (names[3] == "as_of" && ValueOf(a, "as_of") == NonEmpty(a.asOf))
      && forall i :: 0 <= i < |Spec(a.m)| ==> names[i + 4] == Spec(a.m)[i]
  {
    hide Spec, Segment;
  }

  lemma NoPairs(a: Address)
    ensures PairsFor(a, []) == []
  {
  }

  /** A declared filter is none of the grammar's own names. */
  lemma FilterName(a: Address, i: nat)
    requires i < |Spec(a.m)|
    ensures var key := Spec(a.m)[i];
      ValueOf(a, key) == if key in a.filters && a.filters[key] != "" then Some(a.filters[key]) else None
  {
    hide Spec;
    NamesDistinct(a.m);
    var names := Names(a.m);
    assert names[i + 4] == Spec(a.m)[i];
    assert names[0] == "m" && names[1] == "view" && names[2] == "sel" && names[3] == "as_of";
  }

  // ---- the grammar, name by name ---------------------------------------------------------

  /** Which modules declare a filter. */
  function Declarers(name: string): set<Module> {
    if name in ["kind"] then {Disputes, Memories, Audit}
    else if name in ["team", "project"] then {Disputes, Memories}
    else if name in ["page"] then {Disputes, Memories, Docs}
    else if name in ["q", "status"] then {Memories, Docs}
    else if name in ["band", "minClaims", "minAge"] then {Disputes}
    else if name in ["visibility", "sort", "dir"] then {Memories}
    else if name in ["cstatus", "poffset"] then {Reviews}
    else if name in ["stack", "category", "lifecycle"] then {Standards}
    else if name in ["topic"] then {Docs}
    else if name in ["offset"] then {Audit}
    else {}
  }

  lemma DeclaredExactly(m: Module, name: string)
    ensures name in Spec(m) <==> m in Declarers(name)
  {
    match m {
      case Reviews => ReviewsDeclare(name);
      case Disputes => DisputesDeclare(name);
      case Memories => MemoriesDeclare(name);
      case Docs => DocsDeclare(name);
      case Audit => AuditDeclares(name);
      case Standards => StandardsDeclare(name);
      case _ =>
    }
  }

  lemma ReviewsDeclare(name: string)
    ensures name in Spec(Reviews) <==> Reviews in Declarers(name)
  {
  }

  lemma DisputesDeclare(name: string)
    ensures name in Spec(Disputes) <==> Disputes in Declarers(name)
  {
  }

  lemma MemoriesDeclare(name: string)
    ensures name in Spec(Memories) <==> Memories in Declarers(name)
  {
  }

  lemma DocsDeclare(name: string)
    ensures name in Spec(Docs) <==> Docs in Declarers(name)
  {
  }

  lemma AuditDeclares(name: string)
    ensures name in Spec(Audit) <==> Audit in Declarers(name)
  {
  }

  lemma StandardsDeclare(name: string)
    ensures name in Spec(Standards) <==> Standards in Declarers(name)
  {
  }

  /** The names by which links call the modules; without one, and with any other, it is analytics. */
  const SEGMENTS: seq<string> :=
    ["analytics", "memories", "disputes", "graph", "ingest", "health", "docs", "reviews", "audit",
     "divergence", "standards", "skills", "projects", "keys"]

  lemma SegmentsExactly(k: nat, raw: Option<string>)
    requires k < |SEGMENTS|
    ensures |SEGMENTS| == |ROUTES| && ParseModule(Some(SEGMENTS[k])) == ROUTES[k]
    ensures (raw.None? || raw.value !in SEGMENTS) ==> ParseModule(raw) == Analytics
  {
    SegmentAt(k);
    SegmentRead(ROUTES[k]);
    if raw.Some? && raw.value !in SEGMENTS {
      forall other: Module
        ensures raw.value != Segment(other)
      {
        var j := PlaceOfModule(other);
        SegmentAt(j);
      }
      NoSegment(ROUTES, raw.value);
    }
  }

  lemma SegmentAt(k: nat)
    requires k < 14
    ensures Segment(ROUTES[k]) == SEGMENTS[k]
  {
  }

  lemma PlaceOfModule(m: Module) returns (k: nat)
    ensures k < 14 && ROUTES[k] == m
  {
    match m {
      case Analytics => k := 0;
      case Memories => k := 1;
      case Disputes => k := 2;
      case Graph => k := 3;
      case Ingest => k := 4;
      case Health => k := 5;
      case Docs => k := 6;
      case Reviews => k := 7;
      case Audit => k := 8;
      case Divergence => k := 9;
      case Standards => k := 10;
      case Skills => k := 11;
      case Projects => k := 12;
      case Keys => k := 13;
    }
  }

  /** What normalising keeps. */
  lemma NormalExactly(a: Address, v: string)
    ensures Normal(a).m == a.m
    ensures Normal(a).view == Some(v) <==> v != "" && a.view == Some(v)
    ensures Normal(a).sel == Some(v) <==> v != "" && a.sel == Some(v)
    ensures Normal(a).asOf == Some(v) <==> v != "" && a.asOf == Some(v)
    ensures forall k :: k in Normal(a).filters && Normal(a).filters[k] == v <==>
              v != "" && k in a.filters && a.filters[k] == v && a.m in Declarers(k)
  {
    hide Spec, Declarers;
    forall k
      ensures k in Spec(a.m) <==> a.m in Declarers(k)
    {
      DeclaredExactly(a.m, k);
    }
  }

  lemma {:induction false} ModuleFirst(a: Address, names: seq<string>)
    requires names != [] && names[0] == "m"
    ensures PairsFor(a, names) != [] && PairsFor(a, names)[0] == ("m", Segment(a.m))
  {
    hide Segment, Spec;
    if |names| == 1 {
      assert names[..0] == [];
    } else {
      ModuleFirst(a, names[..|names| - 1]);
    }
  }

  /** Every link is one into the console and starts with its module. */
  lemma EncodedStarts(a: Address, utf8: Utf8)
    requires utf8.Lawful()
    ensures "/console?m=" <= Encode(a, utf8)
  {
    hide Segment, Spec, PairsFor;
    var list := PairsFor(a, Names(a.m));
    assert Names(a.m)[0] == "m";
    ModuleFirst(a, Names(a.m));
    MFirst(list, utf8);
    var q := Serialize(list, utf8);
    assert PATH + "m=" == "/console?m=";
    assert q == "m=" + q[2..];
  }

  lemma MFirst(list: seq<Pair>, utf8: Utf8)
    requires utf8.Lawful() && list != [] && list[0].0 == "m"
    ensures "m=" <= Serialize(list, utf8)
  {
    hide PercentEncode;
    var parts := EncodePairs(list, utf8);
    PlainName(utf8);
    var e := EncodePair(list[0], utf8);
    assert e == "m=" + PercentEncode(utf8.encode(list[0].1)) by {
      assert "m" + "=" == "m=";
    }
    assert parts[0] == e;
  }

  lemma PlainName(utf8: Utf8)
    requires utf8.Lawful()
    ensures IsBytes(utf8.encode("m")) && PercentEncode(utf8.encode("m")) == "m"
  {
    assert IsAscii("m");
    assert utf8.encode("m") == "m";
    assert "m"[1..] == "";
  }

  // ---- one link, written out -------------------------------------------------------------

  lemma PairsStep(a: Address, names: seq<string>, name: string)
    ensures PairsFor(a, names + [name]) ==
            PairsFor(a, names) + (if ValueOf(a, name).Some? then [(name, ValueOf(a, name).value)] else [])
  {
    hide ValueOf;
    assert (names + [name])[..|names|] == names;
  }

  lemma ExampleValues(a: Address)
    requires a == Address(Docs, Some("v"), Some("s"), Some("t"), map["page" := "2", "q" := "a b", "x" := "y"])
    ensures ValueOf(a, "m") == Some("docs") && ValueOf(a, "view") == Some("v") && ValueOf(a, "sel") == Some("s")
    ensures ValueOf(a, "as_of") == Some("t")
    ensures ValueOf(a, "q") == Some("a b") && ValueOf(a, "topic") == None && ValueOf(a, "status") == None
    ensures ValueOf(a, "page") == Some("2")
  {
    DocsDeclare("q");
    DocsDeclare("topic");
    DocsDeclare("status");
    DocsDeclare("page");
  }

  lemma ExamplePairs(a: Address)
    requires a == Address(Docs, Some("v"), Some("s"), Some("t"), map["page" := "2", "q" := "a b", "x" := "y"])
    ensures PairsFor(a, Names(Docs)) ==
      [("m", "docs"), ("view", "v"), ("sel", "s"), ("as_of", "t"), ("q", "a b"), ("page", "2")]
  {
    ExampleValues(a);
    hide ValueOf, PairsFor;
    NoPairs(a);
    PairsStep(a, [], "m");
    assert [] + ["m"] == ["m"];
    PairsStep(a, ["m"], "view");
    assert ["m"] + ["view"] == ["m", "view"];
    PairsStep(a, ["m", "view"], "sel");
    assert ["m", "view"] + ["sel"] == ["m", "view", "sel"];
    PairsStep(a, ["m", "view", "sel"], "as_of");
    assert ["m", "view", "sel"] + ["as_of"] == ["m", "view", "sel", "as_of"];
    PairsStep(a, ["m", "view", "sel", "as_of"], "q");
    assert ["m", "view", "sel", "as_of"] + ["q"] == ["m", "view", "sel", "as_of", "q"];
    PairsStep(a, ["m", "view", "sel", "as_of", "q"], "topic");
    assert ["m", "view", "sel", "as_of", "q"] + ["topic"] == ["m", "view", "sel", "as_of", "q", "topic"];
    PairsStep(a, ["m", "view", "sel", "as_of", "q", "topic"], "status");
    assert ["m", "view", "sel", "as_of", "q", "topic"] + ["status"] ==
           ["m", "view", "sel", "as_of", "q", "topic", "status"];
    PairsStep(a, ["m", "view", "sel", "as_of", "q", "topic", "status"], "page");
    assert ["m", "view", "sel", "as_of", "q", "topic", "status"] + ["page"] ==
           ["m", "view", "sel", "as_of", "q", "topic", "status", "page"];
    assert Names(Docs) == ["m", "view", "sel", "as_of", "q", "topic", "status", "page"];
  }

  lemma KeptPair(name: string, value: string, utf8: Utf8)
    requires utf8.Lawful() && IsAscii(name) && IsAscii(value)
    requires (forall k :: 0 <= k < |name| ==> IsKept(name[k])) && forall k :: 0 <= k < |value| ==> IsKept(value[k])
    ensures EncodePair((name, value), utf8) == name + "=" + value
  {
    KeptText(name);
    KeptText(value);
  }

  lemma {:induction false} KeptText(s: string)
    requires IsBytes(s) && forall k :: 0 <= k < |s| ==> IsKept(s[k])
    ensures PercentEncode(s) == s
  {
    if s == "" {
    } else {
      KeptText(s[1..]);
      assert s == [s[0]] + s[1..];
    }
  }

  lemma SpacePair(utf8: Utf8)
    requires utf8.Lawful()
    ensures EncodePair(("q", "a b"), utf8) == "q=a+b"
  {
    assert IsAscii("q") && IsAscii("a b");
    assert utf8.encode("q") == "q" && utf8.encode("a b") == "a b";
    KeptText("q");
    KeptText("b");
    assert "a b"[1..] == " b" && " b"[1..] == "b";
    assert PercentEncode(" b") == "+" + PercentEncode("b") == "+b";
    assert PercentEncode("a b") == "a" + PercentEncode(" b");
  }

  /** A link with something under every name of the grammar, in the grammar's order; a filter that the
      module does not declare is left out. */
  lemma ExampleLink(utf8: Utf8)
    requires utf8.Lawful()
    ensures
      Encode(Address(Docs, Some("v"), Some("s"), Some("t"), map["page" := "2", "q" := "a b", "x" := "y"]), utf8)
      == "/console?" + Join(["m=docs", "view=v", "sel=s", "as_of=t", "q=a+b", "page=2"], "&")
  {
    var a := Address(Docs, Some("v"), Some("s"), Some("t"), map["page" := "2", "q" := "a b", "x" := "y"]);
    ExamplePairs(a);
    ExampleEncoded(utf8);
    hide EncodePairs, Join, PairsFor, Names, Utf8.Lawful;
    assert a.m == Docs;
  }

  lemma ExampleEncoded(utf8: Utf8)
    requires utf8.Lawful()
    ensures
      EncodePairs([("m", "docs"), ("view", "v"), ("sel", "s"), ("as_of", "t"), ("q", "a b"), ("page", "2")], utf8)
      == ["m=docs", "view=v", "sel=s", "as_of=t", "q=a+b", "page=2"]
  {
    ExampleParts(utf8);
    hide EncodePair, EncodePairs, Utf8.Lawful, IsAscii, IsBytes;
    var p0: Pair, p1: Pair, p2: Pair := ("m", "docs"), ("view", "v"), ("sel", "s");
    var p3: Pair, p4: Pair, p5: Pair := ("as_of", "t"), ("q", "a b"), ("page", "2");
    SixEncoded(p0, p1, p2, p3, p4, p5, utf8);
  }

  lemma SixEncoded(p0: Pair, p1: Pair, p2: Pair, p3: Pair, p4: Pair, p5: Pair, utf8: Utf8)
    requires utf8.Lawful()
    ensures EncodePairs([p0, p1, p2, p3, p4, p5], utf8) ==
      [EncodePair(p0, utf8), EncodePair(p1, utf8), EncodePair(p2, utf8), EncodePair(p3, utf8), EncodePair(p4, utf8),
       EncodePair(p5, utf8)]
  {
    hide EncodePair, EncodePairs, Utf8.Lawful;
  }

  lemma ExampleParts(utf8: Utf8)
    requires utf8.Lawful()
    ensures EncodePair(("m", "docs"), utf8) == "m=docs" && EncodePair(("view", "v"), utf8) == "view=v"
    ensures EncodePair(("sel", "s"), utf8) == "sel=s" && EncodePair(("as_of", "t"), utf8) == "as_of=t"
    ensures EncodePair(("q", "a b"), utf8) == "q=a+b" && EncodePair(("page", "2"), utf8) == "page=2"
  {
    hide EncodePair, Utf8.Lawful;
    KeptPair("m", "docs", utf8);
    KeptPair("view", "v", utf8);
    KeptPair("sel", "s", utf8);
    KeptPair("as_of", "t", utf8);
    KeptPair("page", "2", utf8);
    SpacePair(utf8);
  }

  // ---- round trips --------------------------------------------------------------------

  /** An address without empty fields and without filters its module does not declare. */
  function Normal(a: Address): Address {
    Address(a.m, NonEmpty(a.view), NonEmpty(a.sel), NonEmpty(a.asOf),
            map k | k in a.filters && k in Spec(a.m) && a.filters[k] != "" :: a.filters[k])
  }

  lemma SegmentRead(m: Module)
    ensures ParseModule(Some(Segment(m))) == m
  {
    SegmentFound(ROUTES, m);
  }

  /** `?m=` names a module exactly by its segment; anything else, or nothing, names the default one. */
  lemma ParseModuleExactly(raw: Option<string>, m: Module)
    ensures ParseModule(raw) == m <==>
      || raw == Some(Segment(m))
      || (m == DEFAULT_MODULE && forall other :: raw != Some(Segment(other)))
  {
    if other :| raw == Some(Segment(other)) {
      SegmentRead(other);
      if other != m {
        SegmentsDiffer(other, m);
      }
    } else if raw.Some? {
      NoSegment(ROUTES, raw.value);
    }
  }

  lemma {:induction false} NoSegment(routes: seq<Module>, v: string)
    requires forall other :: v != Segment(other)
    ensures FindSegment(routes, v) == None
  {
    if routes == [] {
    } else {
      NoSegment(routes[1..], v);
    }
  }

  lemma {:induction false} SegmentFound(routes: seq<Module>, m: Module)
    requires m in routes
    ensures FindSegment(routes, Segment(m)) == Some(m)
  {
    if routes[0] == m {
    } else {
      SegmentsDiffer(routes[0], m);
      SegmentFound(routes[1..], m);
    }
  }

  lemma SegmentsDiffer(a: Module, b: Module)
    requires a != b
    ensures Segment(a) != Segment(b)
  {
  }

  /** The query part of a link. */
  function QueryOf(url: string): string {
    var at := IndexOf(url, "?", 0);
    if at < 0 then "" else url[at + 1..]
  }

  lemma QueryOfEncoded(q: string)
    ensures QueryOf(PATH + q) == q
  {
    var url := PATH + q;
    forall k: nat | k < 8
      ensures !OccursAt(url, "?", k)
    {
      assert url[k] == PATH[k];
      assert url[k..k + 1][0] == url[k];
    }
    assert url[8..9] == "?";
    assert OccursAt(url, "?", 8);
    assert url[9..] == q;
  }

  /** What a page opened at a link decodes. */
  function Opened(url: string, utf8: Utf8): Address {
    Decode(Bag(ParseQuery(QueryOf(url), utf8)))
  }

  lemma ReadBack(a: Address, name: string)
    ensures FirstOf(Bag(PairsFor(a, Names(a.m))), name) ==
            if name in Names(a.m) then ValueOf(a, name) else None
  {
    hide Bag, First, FirstOf, Names, ValueOf, PairsFor;
    BagFirst(PairsFor(a, Names(a.m)), name);
    PairsForFirst(a, Names(a.m), name);
  }

  /** Opening a link gives back the address it was made from, normalised. */
  lemma AddressRoundTrip(a: Address, utf8: Utf8)
    requires utf8.Lawful()
    ensures Opened(Encode(a, utf8), utf8) == Normal(a)
  {
    hide Serialize, ParseQuery, QueryOf, Bag, FirstOf, Spec, Segment, PairsFor, ParseModule;
    var list := PairsFor(a, Names(a.m));
    QueryOfEncoded(Serialize(list, utf8));
    QueryRoundTrip(list, utf8);
    var params := Bag(list);
    OwnNames(a.m);
    ReadBack(a, "m");
    ReadBack(a, "view");
    ReadBack(a, "sel");
    ReadBack(a, "as_of");
    SegmentRead(a.m);
    forall k | k in Spec(a.m)
      ensures OneOf(params, k) == if k in a.filters && a.filters[k] != "" then Some(a.filters[k]) else None
    {
      ReadBack(a, k);
      var i :| 0 <= i < |Spec(a.m)| && Spec(a.m)[i] == k;
      FilterName(a, i);
    }
    assert ReadFilters(Spec(a.m), params) == Normal(a).filters;
  }

  lemma OwnNames(m: Module)
    ensures "m" in Names(m) && "view" in Names(m) && "sel" in Names(m) && "as_of" in Names(m)
    ensures forall k :: k in Spec(m) ==> k in Names(m)
  {
    hide Spec;
    var own := ["m", "view", "sel", "as_of"];
    assert own[0] in own && own[1] in own && own[2] in own && own[3] in own;
  }

  lemma {:induction false} SamePairs(a: Address, b: Address, names: seq<string>)
    requires forall k :: 0 <= k < |names| ==> ValueOf(a, names[k]) == ValueOf(b, names[k])
    ensures PairsFor(a, names) == PairsFor(b, names)
  {
    if names == [] {
    } else {
      SamePairs(a, b, names[..|names| - 1]);
    }
  }

  lemma NormalValues(a: Address, name: string)
    ensures ValueOf(Normal(a), name) == ValueOf(a, name)
  {
    hide Spec, Segment;
  }

  lemma NormalEncodes(a: Address, utf8: Utf8)
    requires utf8.Lawful()
    ensures Encode(Normal(a), utf8) == Encode(a, utf8)
  {
    hide ValueOf, Normal, Serialize, PairsFor;
    forall k | 0 <= k < |Names(a.m)|
      ensures ValueOf(Normal(a), Names(a.m)[k]) == ValueOf(a, Names(a.m)[k])
    {
      NormalValues(a, Names(a.m)[k]);
    }
    SamePairs(Normal(a), a, Names(a.m));
    NormalModule(a);
  }

  lemma NormalModule(a: Address)
    ensures Normal(a).m == a.m
  {
  }

  /** Two addresses are the same link exactly when their normal forms are equal. */
  lemma SameLink(a: Address, b: Address, utf8: Utf8)
    requires utf8.Lawful()
    ensures Encode(a, utf8) == Encode(b, utf8) <==> Normal(a) == Normal(b)
  {
    hide Encode, Normal, Opened;
    AddressRoundTrip(a, utf8);
    AddressRoundTrip(b, utf8);
    NormalEncodes(a, utf8);
    NormalEncodes(b, utf8);
  }

  lemma DecodedValues(params: Params)
    ensures Normal(Decode(params)) == Decode(params)
  {
    hide Spec, ParseModule, FirstOf;
    var a := Decode(params);
    assert forall k :: k in a.filters ==> k in Spec(a.m) && a.filters[k] != "";
    assert Normal(a).filters == a.filters;
  }

  /** What was decoded is already normal: writing it as a link and opening that changes nothing. */
  lemma DecodedIsNormal(params: Params, utf8: Utf8)
    requires utf8.Lawful()
    ensures Normal(Decode(params)) == Decode(params)
    ensures Opened(Encode(Decode(params), utf8), utf8) == Decode(params)
  {
    hide Normal, Decode, Encode, Opened;
    AddressRoundTrip(Decode(params), utf8);
    DecodedValues(params);
  }

  /** Decoding looks at the first value of `m`, of the grammar's own names and of the filters the
      module declares, and at nothing else. */
  lemma DecodeIgnoresTheRest(p: seq<Pair>, q: seq<Pair>)
    requires First(p, "m") == First(q, "m")
    requires forall k :: k in Names(ParseModule(First(p, "m"))) ==> First(p, k) == First(q, k)
    ensures Decode(Bag(p)) == Decode(Bag(q))
  {
    hide Bag, FirstOf, First, Spec, ParseModule;
    var m := ParseModule(First(p, "m"));
    OwnNames(m);
    BagFirst(p, "m");
    BagFirst(q, "m");
    forall k | k in Names(m)
      ensures OneOf(Bag(p), k) == OneOf(Bag(q), k)
    {
      BagFirst(p, k);
      BagFirst(q, k);
    }
    assert ReadFilters(Spec(m), Bag(p)) == ReadFilters(Spec(m), Bag(q));
  }

  /** Parameters the module does not declare, put anywhere, change nothing. */
  lemma DecodeIgnoresUndeclared(before: seq<Pair>, extra: seq<Pair>, after: seq<Pair>)
    requires forall p :: p in extra ==> p.0 !in Names(ParseModule(First(before + after, "m")))
    ensures Decode(Bag(before + extra + after)) == Decode(Bag(before + after))
  {
    hide Decode, Bag, First, Names, ParseModule;
    var m := ParseModule(First(before + after, "m"));
    hide ParseModule;
    OwnNames(m);
    forall k | k in Names(m)
      ensures First(before + extra + after, k) == First(before + after, k)
    {
      FirstConcat(before + extra, after, k);
      FirstConcat(before, extra, k);
      FirstConcat(before, after, k);
      FirstIsMember(extra, k);
    }
    DecodeIgnoresTheRest(before + after, before + extra + after);
  }

  /** The same pairs in another order, in which the pairs of each name keep theirs. */
  ghost predicate Reordered(p: seq<Pair>, q: seq<Pair>) {
    forall name :: Values(p, name) == Values(q, name)
  }

  /** Decoding ignores the order in which different names come. */
  lemma DecodeIgnoresOrder(p: seq<Pair>, q: seq<Pair>)
    requires Reordered(p, q)
    ensures Bag(p) == Bag(q) && Decode(Bag(p)) == Decode(Bag(q))
  {
    hide Decode, Values, First;
    forall name
      ensures name in Bag(p) <==> name in Bag(q)
    {
      FirstValue(p, name);
      FirstValue(q, name);
    }
  }

  ghost predicate OncePerName(list: seq<Pair>) {
    forall i, j :: 0 <= i < j < |list| ==> list[i].0 != list[j].0
  }

  lemma {:induction false} FirstMember(list: seq<Pair>, p: Pair)
    requires OncePerName(list) && p in list
    ensures First(list, p.0) == Some(p.1)
  {
    if list[0] == p {
    } else {
      assert list == [list[0]] + list[1..];
      var k :| 0 <= k < |list| && list[k] == p;
      assert list[0].0 != list[k].0;
      FirstMember(list[1..], p);
    }
  }

  lemma {:induction false} FirstIsMember(list: seq<Pair>, name: string)
    ensures First(list, name).Some? ==> (name, First(list, name).value) in list
  {
    if list == [] {
    } else {
      FirstIsMember(list[1..], name);
      assert list[0] == (list[0].0, list[0].1);
    }
  }

  lemma {:induction false} OnceValues(list: seq<Pair>, name: string)
    requires OncePerName(list)
    ensures Values(list, name) == if First(list, name).Some? then [First(list, name).value] else []
  {
    if list == [] {
    } else {
      OnceValues(list[1..], name);
      assert forall k :: 1 <= k < |list| ==> list[k] == list[1..][k - 1];
      if list[0].0 == name && First(list[1..], name).Some? {
        FirstIsMember(list[1..], name);
        assert false;
      }
    }
  }

  /** Any two lists of the same pairs are so reordered when no name is repeated. */
  lemma OnceReordered(p: seq<Pair>, q: seq<Pair>)
    requires OncePerName(p) && OncePerName(q) && multiset(p) == multiset(q)
    ensures Reordered(p, q)
  {
    hide First, OncePerName, Values;
    forall k
      ensures Values(p, k) == Values(q, k)
    {
      OnceValues(p, k);
      OnceValues(q, k);
      FirstIsMember(p, k);
      FirstIsMember(q, k);
      assert forall x :: x in p <==> x in multiset(p);
      assert forall x :: x in q <==> x in multiset(q);
      if First(p, k).Some? {
        FirstMember(q, (k, First(p, k).value));
      }
      if First(q, k).Some? {
        FirstMember(p, (k, First(q, k).value));
      }
    }
  }
}
