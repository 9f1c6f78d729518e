/**
 What the inline parser does with citation markers: no plain text ever shows one, and
 exactly which ones become citations.
 */
module Citations {
  import opened Text
  import opened Marker
  import opened Inline
  import opened InlineParser

  // ---- no marker is ever shown as text ------------------------------------------------

  /** At every depth: no empty plain node, no two plain nodes side by side, none with a marker in it. */
  ghost predicate Clean(ns: seq<Node>) {
    ns == [] || (CleanNode(ns[0]) && Clean(ns[1..]) && (|ns| > 1 && ns[0].Plain? ==> !ns[1].Plain?))
  }

  ghost predicate CleanNode(n: Node) {
    match n
    case Plain(v) => v != "" && Markers(v) == []
    case Strong(kids) => Clean(kids)
    case Em(kids) => Clean(kids)
    case Link(_, kids) => Clean(kids)
    case _ => true
  }

  /** A leading plain node is a stretch of the text at no place of which a marker starts. */
  ghost predicate LeadsUnmarked(ns: seq<Node>, s: string) {
    ns != [] && ns[0].Plain? ==>
      ns[0].v <= s && forall k :: 0 <= k < |ns[0].v| ==> !StartsMarker(s[k..])
  }

  lemma UnmarkedPart(v: string, s: string)
    requires v <= s && forall k :: 0 <= k < |v| ==> !StartsMarker(s[k..])
    ensures Markers(v) == []
  {
    forall k | 0 <= k < |v|
      ensures !StartsMarker(v[k..])
    {
      assert v[k..] <= s[k..];
      if StartsMarker(v[k..]) {
        StartsMarkerPrefix(v[k..], s[k..]);
      }
    }
    NoMarkers(v);
  }

  /** No marker starts inside a plain token. */
  lemma PlainTokenUnmarked(s: string)
    requires s != "" && Lex(s).PlainToken?
    ensures forall k :: 0 <= k < PlainRun(s) ==> !StartsMarker(s[k..])
  {
    hide Lex;
    assert s[0..] == s;
    forall k | 1 <= k < PlainRun(s)
      ensures !StartsMarker(s[k..])
    {
      assert s[k..][0] == s[k];
    }
  }

  /** Two stretches of a text, one after the other, at no place of which a marker starts. */
  lemma UnmarkedOn(s: string, n: nat, v: string)
    requires n <= |s| && v <= s[n..]
    requires forall k :: 0 <= k < n ==> !StartsMarker(s[k..])
    requires forall k :: 0 <= k < |v| ==> !StartsMarker(s[n..][k..])
    ensures s[..n] + v <= s && forall k :: 0 <= k < n + |v| ==> !StartsMarker(s[k..])
  {
    hide StartsMarker;
    forall k | n <= k < n + |v|
      ensures !StartsMarker(s[k..])
    {
      assert s[n..][k - n..] == s[k..];
    }
    assert s == s[..n] + s[n..];
  }

  lemma CleanCons(node: Node, others: seq<Node>)
    requires CleanNode(node) && Clean(others) && (others != [] && node.Plain? ==> !others[0].Plain?)
    ensures Clean([node] + others)
  {
    hide CleanNode;
    assert ([node] + others)[1..] == others;
  }

  /** A construct's node in front of a clean rest. */
  lemma CleanStep(s: string, node: Node, n: nat, rest: seq<Node>)
    requires n <= |s| && Clean(rest) && LeadsUnmarked(rest, s[n..])
    requires node.Plain? ==>
      node.v != "" && node.v == s[..n] && forall k :: 0 <= k < n ==> !StartsMarker(s[k..])
    requires !node.Plain? ==> CleanNode(node)
    ensures Clean(Beside([node], rest)) && LeadsUnmarked(Beside([node], rest), s)
  {
    hide Markers, StartsMarker;
    if node.Plain? && rest != [] && rest[0].Plain? {
      CleanMerge(s, n, rest);
    } else {
      if node.Plain? {
        UnmarkedPart(node.v, s);
      }
      hide Clean;
      CleanCons(node, rest);
      assert Beside([node], rest) == [node] + rest;
    }
  }

  lemma CleanMerge(s: string, n: nat, rest: seq<Node>)
    requires 0 < n <= |s| && Clean(rest) && rest != [] && rest[0].Plain? && LeadsUnmarked(rest, s[n..])
    requires forall k :: 0 <= k < n ==> !StartsMarker(s[k..])
    ensures var r := Beside([Plain(s[..n])], rest); Clean(r) && LeadsUnmarked(r, s)
  {
    hide Markers, StartsMarker;
    var v := s[..n] + rest[0].v;
    UnmarkedOn(s, n, rest[0].v);
    UnmarkedPart(v, s);
    CleanCons(Plain(v), rest[1..]);
    assert Beside([Plain(s[..n])], rest) == [Plain(v)] + rest[1..];
  }

  lemma {:induction false} ScanClean(s: string)
    ensures Clean(Scan(s)) && LeadsUnmarked(Scan(s), s)
    decreases |s|, 0
  {
    hide Lex, Collapse, Markers, StartsMarker, Beside, Tree, LeadsUnmarked;
    if s == "" {
      NothingLeads(s);
    } else {
      var n := |Lex(s).Source()|;
      ScanClean(s[n..]);
      match Lex(s) {
        case StrongToken(inner) => TreeClean(inner);
        case EmToken(_, inner) => TreeClean(inner);
        case LinkToken(caption, _) => TreeClean(caption);
        case PlainToken(_) => PlainTokenUnmarked(s);
        case _ =>
      }
      CleanStep(s, TokenNode(s), n, Scan(s[n..]));
    }
  }

  lemma NothingLeads(s: string)
    ensures LeadsUnmarked([], s)
  {
  }

  /** No plain node of any parse, however deep, is empty, touches another or shows a marker. */
  lemma {:induction false} TreeClean(src: string)
    ensures Clean(Tree(src))
    decreases |src|, 1
  {
    ScanClean(Collapse(src));
  }

  // ---- which markers become citations -------------------------------------------------

  /** No code span and no link, at any depth, has a marker among its own characters. */
  ghost predicate Exposed(src: string)
    decreases |src|, 1
  {
    ExposedText(Collapse(src))
  }

  ghost predicate ExposedText(s: string)
    decreases |s|, 0
  {
    s == "" || (
      && match Lex(s) {
        case CodeToken(v) => Markers(v) == []
        case LinkToken(_, _) => Markers(Lex(s).Source()) == []
        case StrongToken(inner) => Exposed(inner)
        case EmToken(_, inner) => Exposed(inner)
        case _ => true
      }
      && ExposedText(s[|Lex(s).Source()|..]))
  }

  /** The end of a construct cuts no marker in two. */
  lemma TokenBoundary(s: string)
    requires s != ""
    ensures var t := Lex(s).Source(); Markers(s) == Markers(t) + Markers(s[|t|..])
  {
    hide Lex, Markers, PlainRun;
    var t := Lex(s).Source();
    var n := |t|;
    match Lex(s) {
      case MarkToken(mark) =>
        MarkThen(s);
        MarkersOfMark(mark);
        assert s[..MARKER_LENGTH] == mark;
      case PlainToken(v) =>
        PlainTokenUnmarked(s);
        MarkersSkip(s, n);
        UnmarkedPart(v, s);
      case _ =>
        var c := t[n - 1];
        assert t == t[..n - 1] + [c] + "";
        assert s == t[..n - 1] + [c] + s[n..];
        MarkersSplit(t[..n - 1], c, s[n..]);
        MarkersSplit(t[..n - 1], c, "");
        NoMarkers("");
    }
  }

  lemma MarkThen(s: string)
    requires StartsMarker(s)
    ensures Markers(s) == [MemoryId(s[..MARKER_LENGTH])] + Markers(s[MARKER_LENGTH..])
  {
  }

  lemma MarkersOfMark(mark: string)
    requires IsMarker(mark)
    ensures Markers(mark) == [MemoryId(mark)]
  {
    assert mark[..MARKER_LENGTH] == mark && mark[MARKER_LENGTH..] == "";
  }

  /** Delimiters around a text add no markers. */
  lemma MarkersWithin(open: string, inner: string, close: string)
    requires forall k :: 0 <= k < |open| ==> !InMarker(open[k])
    requires forall k :: 0 <= k < |close| ==> !InMarker(close[k])
    requires 1 <= |open| <= 2 && 1 <= |close| <= 2
    ensures Markers(open + inner + close) == Markers(inner)
  {
    hide Markers, InMarker;
    NoMarkers("");
    var t := inner + close;
    assert open + inner + close == open + t;
    if |open| == 2 {
      assert open + t == "" + [open[0]] + ([open[1]] + t);
      MarkersSplit("", open[0], [open[1]] + t);
      assert [open[1]] + t == "" + [open[1]] + t;
      MarkersSplit("", open[1], t);
    } else {
      assert open + t == "" + [open[0]] + t;
      MarkersSplit("", open[0], t);
    }
    assert t == inner + [close[0]] + close[1..];
    MarkersSplit(inner, close[0], close[1..]);
    if |close| == 2 {
      assert close[1..] == "" + [close[1]] + "";
      MarkersSplit("", close[1], "");
    }
  }

  lemma NoCloseNoMarkers(s: string)
    requires ']' !in s
    ensures Markers(s) == []
  {
    forall k | 0 <= k < |s|
      ensures !StartsMarker(s[k..])
    {
      assert |s[k..]| >= MARKER_LENGTH ==> s[k..][..MARKER_LENGTH][39] == s[k + 39];
    }
    NoMarkers(s);
  }

  lemma TwoParts(a: seq<string>, b: seq<string>, c: seq<string>, d: seq<string>)
    requires |a| <= |c| && |b| <= |d|
    ensures a + b == c + d <==> a == c && b == d
  {
    if a + b == c + d {
      assert a == (a + b)[..|a|] == (c + d)[..|c|] == c;
      assert b == (a + b)[|a|..] == (c + d)[|c|..] == d;
    }
  }

  lemma IdsBeside(n: Node, rest: seq<Node>)
    ensures Ids(Beside([n], rest)) == IdsOfNode(n) + Ids(rest)
  {
    hide Ids;
    IdsOne(n);
    IdsConcat([n], rest);
    if rest != [] && rest[0].Plain? && n.Plain? {
      var merged := Plain(n.v + rest[0].v);
      assert Beside([n], rest) == [merged] + rest[1..];
      assert rest == [rest[0]] + rest[1..];
      IdsOne(rest[0]);
      IdsOne(merged);
      IdsConcat([rest[0]], rest[1..]);
      IdsConcat([merged], rest[1..]);
    }
  }

  /** What one construct yields, against the markers among its characters. */
  lemma {:induction false} TokenCites(s: string)
    requires s != "" && Settled(s)
    ensures |IdsOfNode(TokenNode(s))| <= |Markers(Lex(s).Source())|
    ensures IdsOfNode(TokenNode(s)) == Markers(Lex(s).Source()) <==>
            match Lex(s) {
              case CodeToken(v) => Markers(v) == []
              case LinkToken(_, _) => Markers(Lex(s).Source()) == []
              case StrongToken(inner) => Exposed(inner)
              case EmToken(_, inner) => Exposed(inner)
              case _ => true
            }
    decreases |s|, 0
  {
    hide Lex, Markers, Settled, PlainRun, Tree, Exposed, Ids, FooterAt, Collapse;
    match Lex(s) {
      case MarkToken(mark) =>
        MarkersOfMark(mark);
      case CodeToken(v) =>
        MarkersWithin("`", v, "`");
      case StrongToken(inner) =>
        assert inner == s[2..|inner| + 2];
        SettledPart(s, 2, |inner| + 2);
        MarkersWithin("**", inner, "**");
        CollapseKeepsMarkers(inner);
        TreeCites(inner);
      case EmToken(c, inner) =>
        assert inner == s[1..|inner| + 1];
        SettledPart(s, 1, |inner| + 1);
        MarkersWithin([c], inner, [c]);
        CollapseKeepsMarkers(inner);
        TreeCites(inner);
      case LinkToken(caption, href) =>
        LinkCaption(s);
        SettledPart(s, 1, |caption| + 1);
        NoCloseNoMarkers(caption);
        CollapseKeepsMarkers(caption);
        TreeCites(caption);
      case PlainToken(v) =>
        PlainTokenUnmarked(s);
        UnmarkedPart(v, s);
    }
  }

  lemma LinkCaptionCloses(s: string)
    requires s != "" && Lex(s).LinkToken?
    ensures ']' !in Lex(s).caption
  {
    hide LinkAt, StartsMarker;
  }

  lemma LinkCaption(s: string)
    requires s != "" && Lex(s).LinkToken?
    ensures ']' !in Lex(s).caption && |Lex(s).caption| < |s|
    ensures Lex(s).caption == s[1..|Lex(s).caption| + 1]
  {
    hide Lex;
    var k := Lex(s);
    var t := k.Source();
    assert t == "[" + (k.caption + ("](" + k.href + ")"));
    assert t[1..|k.caption| + 1] == k.caption;
    assert s[1..|k.caption| + 1] == t[1..|k.caption| + 1];
    LinkCaptionCloses(s);
  }

  lemma {:induction false} ScanCites(s: string)
    requires Settled(s)
    ensures |Ids(Scan(s))| <= |Markers(s)|
    ensures Ids(Scan(s)) == Markers(s) <==> ExposedText(s)
    decreases |s|, 1
  {
    if s == "" {
    } else {
      hide Lex, Markers, Settled, Ids, IdsOfNode, TokenNode, Beside;
      var n := |Lex(s).Source()|;
      var rest := s[n..];
      assert rest == s[n..|s|];
      SettledPart(s, n, |s|);
      TokenCites(s);
      ScanCites(rest);
      TokenBoundary(s);
      IdsBeside(TokenNode(s), Scan(rest));
      TwoParts(IdsOfNode(TokenNode(s)), Ids(Scan(rest)), Markers(Lex(s).Source()), Markers(rest));
    }
  }

  /** The citations of a parse, in order, are exactly the markers of its collapsed text, if and
      only if no code span and no link has a marker among its characters. */
  lemma {:induction false} TreeCites(src: string)
    ensures |Ids(Tree(src))| <= |Markers(Collapse(src))|
    ensures Ids(Tree(src)) == Markers(Collapse(src)) <==> Exposed(src)
    decreases |src|, 2
  {
    CollapseSettles(src);
    ScanCites(Collapse(src));
  }

  // ---- a condition to check on sight --------------------------------------------------

  /** No code span and no link, however often the footers are collapsed. */
  ghost predicate Sightly(s: string)
    decreases |s|
  {
    CollapseShrinks(s);
    '`' !in s && !Contains(s, "](") && (Collapse(s) == s || Sightly(Collapse(s)))
  }

  lemma HidersWithin(s: string, from: nat, to: nat)
    requires from <= to <= |s| && '`' !in s && !Contains(s, "](")
    ensures '`' !in s[from..to] && !Contains(s[from..to], "](")
  {
    var t := s[from..to];
    forall k: nat
      ensures !OccursAt(t, "](", k)
    {
      assert !OccursAt(s, "](", from + k);
      if k + 2 <= |t| {
        var u, v := t[k..k + 2], s[from + k..from + k + 2];
        assert u[0] == t[k] == s[from + k] == v[0] && u[1] == t[k + 1] == s[from + k + 1] == v[1];
        assert u == v;
      }
    }
  }

  /** What stands on one side of an emphasis character is sightly if the whole is, although its
      footers collapse apart from the rest. */
  lemma {:induction false} SightlyApart(a: string, c: char, b: string)
    requires !InFooter(c) && Sightly(a + [c] + b)
    ensures Sightly(a) && Sightly(b)
    decreases |a| + |b|
  {
    hide Collapse, InFooter;
    var s := a + [c] + b;
    HidersWithin(s, 0, |a|);
    HidersWithin(s, |a| + 1, |s|);
    assert s[0..|a|] == a && s[|a| + 1..|s|] == b;
    CollapseApart(a, c, b);
    CollapseShrinks(s);
    if Collapse(s) != s {
      SightlyApart(Collapse(a), c, Collapse(b));
    } else {
      CollapseShrinks(a);
      CollapseShrinks(b);
      assert |Collapse(a)| == |a| && |Collapse(b)| == |b|;
    }
  }

  lemma EmphasisInNoFooter()
    ensures !InFooter('*') && !InFooter('_')
  {
  }

  /** A stretch between two emphasis characters. */
  lemma SightlyBetween(s: string, from: nat, to: nat)
    requires 1 <= from <= to < |s| && s[from - 1] in {'*', '_'} && s[to] in {'*', '_'}
    requires Sightly(s)
    ensures Sightly(Collapse(s[from..to])) && |Collapse(s[from..to])| < |s|
  {
    hide Collapse, InFooter;
    EmphasisInNoFooter();
    var t := s[from..to];
    var rest := s[from..];
    assert s == s[..from - 1] + [s[from - 1]] + rest;
    SightlyApart(s[..from - 1], s[from - 1], rest);
    assert rest == t + [s[to]] + s[to + 1..];
    SightlyApart(t, s[to], s[to + 1..]);
  }

  /** From no place of a sightly text on does a construct hide a marker. */
  lemma {:induction false} SightlyExposed(s: string, i: nat)
    requires i <= |s| && Sightly(s)
    ensures ExposedText(s[i..])
    decreases |s|, |s| - i, 1
  {
    hide Lex, Sightly, Markers, Exposed, ExposedText, Contains, Token.Source, IsMarker, StartsMarker, PlainRun;
    if i == |s| {
      NothingHidden();
    } else {
      var rest := s[i..];
      var n := |Lex(rest).Source()|;
      assert rest[n..] == s[i + n..];
      SightlyExposed(s, i + n);
      SightlyHidesNothing(s, i);
      HidersShow(rest);
      BodyExposed(s, i);
      ExposedStep(rest);
    }
  }

  lemma NothingHidden()
    ensures ExposedText("")
  {
  }

  lemma ExposedStep(s: string)
    requires s != "" && !Lex(s).CodeToken? && !Lex(s).LinkToken?
    requires Lex(s).StrongToken? || Lex(s).EmToken? ==> Exposed(Lex(s).inner)
    requires ExposedText(s[|Lex(s).Source()|..])
    ensures ExposedText(s)
  {
    hide Lex, Exposed, Markers, Token.Source;
  }

  lemma SightlyHidesNothing(s: string, i: nat)
    requires i <= |s| && Sightly(s)
    ensures '`' !in s[i..] && !Contains(s[i..], "](")
  {
    hide Collapse;
    HidersWithin(s, i, |s|);
    assert s[i..] == s[i..|s|];
  }

  /** The body of strong and em lies between emphasis characters. */
  lemma StrongBounds(s: string)
    requires s != "" && Lex(s).StrongToken?
    ensures var n := |Lex(s).inner|;
      n + 4 <= |s| && Lex(s).inner == s[2..n + 2] && s[1] == '*' == s[n + 2]
  {
    hide Lex, PlainRun, IsMarker, StartsMarker;
    var inner := Lex(s).inner;
    var t := "**" + inner + "**";
    assert t[1] == '*' && t[|inner| + 2] == '*' && t[2..|inner| + 2] == inner;
    assert t <= s;
  }

  lemma EmBounds(s: string)
    requires s != "" && Lex(s).EmToken?
    ensures var n := |Lex(s).inner|;
      n + 2 <= |s| && Lex(s).inner == s[1..n + 1] && s[0] in {'*', '_'} && s[n + 1] in {'*', '_'}
  {
    hide Lex, PlainRun, IsMarker, StartsMarker;
    var inner, c := Lex(s).inner, Lex(s).c;
    var t := [c] + inner + [c];
    assert t[0] == c && t[|inner| + 1] == c && t[1..|inner| + 1] == inner;
    assert t <= s;
  }

  lemma BodyBounds(s: string, i: nat) returns (from: nat, to: nat)
    requires i < |s| && (Lex(s[i..]).StrongToken? || Lex(s[i..]).EmToken?)
    ensures 1 <= from <= to < |s| && s[from - 1] in {'*', '_'} && s[to] in {'*', '_'}
    ensures Lex(s[i..]).inner == s[from..to]
  {
    hide Lex, StartsMarker, IsMarker, PlainRun, Token.Source;
    var rest := s[i..];
    var k := if Lex(rest).StrongToken? then 2 else 1;
    var n := |Lex(rest).inner|;
    if Lex(rest).StrongToken? {
      StrongBounds(rest);
    } else {
      EmBounds(rest);
    }
    from, to := i + k, i + k + n;
    assert s[from - 1] == rest[k - 1] && s[to] == rest[k + n] && s[from..to] == rest[k..k + n];
  }

  lemma {:induction false} BodyExposed(s: string, i: nat)
    requires i < |s| && Sightly(s)
    ensures Lex(s[i..]).StrongToken? || Lex(s[i..]).EmToken? ==> Exposed(Lex(s[i..]).inner)
    decreases |s|, |s| - i, 0
  {
    hide Lex, Sightly, ExposedText, Collapse;
    if Lex(s[i..]).StrongToken? || Lex(s[i..]).EmToken? {
      var from, to := BodyBounds(s, i);
      SightlyBetween(s, from, to);
      var inner := Collapse(s[from..to]);
      SightlyExposed(inner, 0);
      assert inner[0..] == inner;
    }
  }

  lemma HidersShow(s: string)
    requires s != ""
    ensures Lex(s).CodeToken? ==> '`' in s
    ensures Lex(s).LinkToken? ==> Contains(s, "](")
  {
    hide Lex;
    var k := Lex(s);
    var t := k.Source();
    match k {
      case CodeToken(v) =>
        assert t[0] == '`' == s[0];
      case LinkToken(caption, href) =>
        var j := |caption| + 1;
        assert t == "[" + (caption + ("](" + (href + ")")));
        assert t[j..j + 2] == "](";
        assert s[j..j + 2] == t[j..j + 2];
        assert OccursAt(s, "](", j);
      case _ =>
    }
  }

  /** With no backtick and no `](`, however often the footers are collapsed, every marker becomes a
      citation: strong and em may nest, and each level may collapse footers of its own. */
  lemma AllMarkersCited(src: string)
    requires Sightly(Collapse(src))
    ensures Ids(Tree(src)) == Markers(Collapse(src))
  {
    hide Sightly, ExposedText, Collapse, Tree, Ids, Markers;
    SightlyExposed(Collapse(src), 0);
    assert Collapse(src)[0..] == Collapse(src);
    TreeCites(src);
  }

  lemma {:induction false} NothingToCollapse(s: string)
    requires forall k :: 0 <= k < |s| ==> FooterAt(s[k..]).NoFooter?
    ensures Collapse(s) == s
  {
    if s == "" {
    } else {
      assert s[0..] == s;
      assert forall k :: 0 <= k < |s| - 1 ==> s[1..][k..] == s[k + 1..];
      NothingToCollapse(s[1..]);
    }
  }

  /** In particular when no footer is left. */
  lemma NoFooterSightly(s: string)
    requires '`' !in s && !Contains(s, "](") && forall k :: 0 <= k < |s| ==> FooterAt(s[k..]).NoFooter?
    ensures Sightly(s)
  {
    hide FooterAt, Collapse;
    NothingToCollapse(s);
  }
}
