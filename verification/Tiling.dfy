/**
 The inline parser loses nothing: a declarative account of which construct a text starts
 with, and of how the nodes tile the text they were read from.
 */
module Tiling {
  import opened Text
  import opened Marker
  import opened Inline

  // ---- the construct at the start of a text -------------------------------------------

  /** `k` is a construct, other than plain text, that the text starts with. */
  ghost predicate Opens(k: Token, s: string) {
    && k.Source() <= s
    && match k
       case MarkToken(mark) => IsMarker(mark)
       case CodeToken(v) => '`' !in v
       case StrongToken(inner) => forall j: nat :: 2 <= j < |inner| + 2 ==> !OccursAt(s, "**", j)
       case EmToken(c, inner) => c in {'*', '_'} && inner != "" && c !in inner
       case LinkToken(caption, href) =>
         && !StartsMarker(s)
         && ']' !in caption
         && href != "" && WebTarget(href)
         && forall j :: 0 <= j < |href| ==> href[j] != ')' && !IsSpace(href[j])
       case PlainToken(_) => false
  }

  /** Only web links, in any letter case, and links inside the console. */
  ghost predicate WebTarget(href: string) {
    "http://" <= Lower(href) || "https://" <= Lower(href) || "/" <= href || "#" <= href
  }

  /** `k` is what the parser must find at the start of `s`: a construct that opens there, or, when
      none does, the characters up to the next backtick, star, underscore or bracket; and at none of
      those characters does a construct open. */
  ghost predicate Begins(k: Token, s: string) {
    Opens(k, s) || (
      && k.PlainToken? && k.v != "" && k.v <= s
      && (forall j, other :: 0 <= j < |k.v| ==> !Opens(other, s[j..]))
      && (forall j :: 1 <= j < |k.v| ==> k.v[j] !in {'`', '*', '_', '['})
      && (|k.v| < |s| ==> s[|k.v|] in {'`', '*', '_', '['}))
  }

  lemma IndexOfFirst(s: string, pat: string, from: nat, at: nat)
    requires from <= at && OccursAt(s, pat, at)
    requires forall k: nat :: from <= k < at ==> !OccursAt(s, pat, k)
    ensures IndexOf(s, pat, from) == at
  {
  }

  lemma DoubleStar(s: string)
    ensures OccursAt(s, "**", 0) <==> |s| >= 2 && s[0] == '*' && s[1] == '*'
  {
    if |s| >= 2 {
      assert s[0..2] == [s[0], s[1]];
    }
  }

  lemma ClosesAt(s: string, v: string, c: char)
    requires s != "" && [s[0]] + v + [c] <= s && c !in v
    ensures IndexOf(s, [c], 1) == |v| + 1 && s[1..|v| + 1] == v
  {
    var t := [s[0]] + v + [c];
    var end := |v| + 1;
    assert forall k :: 0 <= k < |t| ==> s[k] == t[k];
    assert s[end..end + 1] == [c];
    forall k: nat | 1 <= k < end
      ensures !OccursAt(s, [c], k)
    {
      assert s[k] == v[k - 1];
      assert s[k..k + 1][0] == s[k];
    }
    IndexOfFirst(s, [c], 1, end);
  }

  lemma OpensMark(s: string, mark: string)
    requires Opens(MarkToken(mark), s)
    ensures s != "" && Lex(s) == MarkToken(mark)
  {
    hide IsLooseMarker, LinkAt, PlainRun;
    assert s[..MARKER_LENGTH] == mark by { hide IsMarker; assert |mark| == MARKER_LENGTH by { MarkLength(mark); } }
  }

  lemma FirstOfMarker(s: string)
    requires StartsMarker(s)
    ensures s != "" && s[0] == '['
  {
    assert s[..MARKER_LENGTH][0] == s[0];
  }

  lemma OpensCode(s: string, v: string)
    requires Opens(CodeToken(v), s)
    ensures s != "" && Lex(s) == CodeToken(v)
  {
    hide IsMarker, LinkAt, PlainRun, IndexOf;
    assert s[0] == ("`" + v + "`")[0];
    ClosesAt(s, v, '`');
    if StartsMarker(s) {
      FirstOfMarker(s);
    }
  }

  lemma OpensStrong(s: string, inner: string)
    requires Opens(StrongToken(inner), s)
    ensures s != "" && Lex(s) == StrongToken(inner)
  {
    hide IsMarker, LinkAt, PlainRun, IndexOf;
    var t := "**" + inner + "**";
    var end := |inner| + 2;
    assert forall k :: 0 <= k < |t| ==> s[k] == t[k];
    assert s[..2] == "**" && s[end..end + 2] == "**" && s[2..end] == inner;
    IndexOfFirst(s, "**", 2, end);
    if StartsMarker(s) {
      FirstOfMarker(s);
    }
  }

  lemma OpensEm(s: string, c: char, inner: string)
    requires Opens(EmToken(c, inner), s)
    ensures s != "" && Lex(s) == EmToken(c, inner)
  {
    hide IsMarker, LinkAt, PlainRun, IndexOf;
    var t := [c] + inner + [c];
    assert forall k :: 0 <= k < |t| ==> s[k] == t[k];
    assert inner[0] == s[1];
    ClosesAt(s, inner, c);
    DoubleStar(s);
    if StartsMarker(s) {
      FirstOfMarker(s);
    }
  }

  lemma TargetEnds(s: string, href: string)
    requires href + ")" <= s
    requires forall j :: 0 <= j < |href| ==> href[j] != ')' && !IsSpace(href[j])
    ensures TargetPrefix(s) == |href|
  {
    var t := href + ")";
    assert t[|href|] == ')';
    assert forall k :: 0 <= k < |t| ==> s[k] == t[k];
  }

  lemma TargetSame(href: string)
    ensures SafeTarget(href) <==> WebTarget(href)
  {
    hide Lower;
  }

  /** The characters of a link, where the parser looks for them. */
  lemma LinkCharacters(s: string, caption: string, href: string)
    requires "[" + caption + "](" + href + ")" <= s
    ensures s != "" && s[0] == '[' && [s[0]] + caption + [']'] <= s
    ensures var close := |caption| + 1;
      OccursAt(s, "(", close + 1) && href + ")" <= s[close + 2..]
  {
    var t := "[" + caption + "](" + href + ")";
    assert t == ['['] + caption + [']'] + ("(" + href + ")");
    assert t[0] == '[' && s[0] == t[0];
    var close := |caption| + 1;
    assert t[..close + 1] == [t[0]] + caption + [']'] == s[..close + 1];
    assert t[close + 1..close + 2] == "(" == s[close + 1..close + 2];
    assert t[close + 2..] == href + ")" == s[close + 2..][..|href| + 1];
  }

  lemma OpensLink(s: string, caption: string, href: string)
    requires Opens(LinkToken(caption, href), s)
    ensures s != "" && s[0] == '[' && LinkAt(s) == LinkToken(caption, href)
  {
    hide IndexOf, SafeTarget, StartsMarker, WebTarget, OccursAt, TargetPrefix;
    TargetSame(href);
    LinkCharacters(s, caption, href);
    ClosesAt(s, caption, ']');
    var rest := s[|caption| + 3..];
    TargetEnds(rest, href);
    assert rest[..|href|] == href && rest[|href|] == (href + ")")[|href|] == ')';
  }

  lemma LexLink(s: string)
    requires s != "" && s[0] == '[' && LinkAt(s).LinkToken? && !StartsMarker(s)
    ensures Lex(s) == LinkAt(s)
  {
    hide LinkAt, StartsMarker, PlainRun;
    DoubleStar(s);
  }

  /** A construct that opens at the start of a text is the one the parser takes. */
  lemma OpensLex(k: Token, s: string)
    requires Opens(k, s)
    ensures s != "" && Lex(s) == k
  {
    hide Lex, LinkAt;
    match k {
      case MarkToken(mark) => OpensMark(s, mark);
      case CodeToken(v) => OpensCode(s, v);
      case StrongToken(inner) => OpensStrong(s, inner);
      case EmToken(c, inner) => OpensEm(s, c, inner);
      case LinkToken(caption, href) =>
        OpensLink(s, caption, href);
        LexLink(s);
      case PlainToken(_) =>
    }
  }

  lemma LexOpens(s: string)
    requires s != "" && !Lex(s).PlainToken?
    ensures Opens(Lex(s), s)
  {
    hide IsMarker, PlainRun, Spaces;
    assert OccursAt(s, "**", 0) ==> s[..2] == "**";
  }

  /** The parser takes exactly the construct that begins there, and one always does. */
  lemma LexIsWhatBegins(s: string, k: Token)
    requires s != ""
    ensures Begins(k, s) <==> k == Lex(s)
  {
    hide Lex, Opens;
    assert s[0..] == s;
    if !Lex(s).PlainToken? {
      LexOpens(s);
    }
    if Opens(k, s) {
      OpensLex(k, s);
    }
    if Begins(k, s) && !Opens(k, s) {
      assert Lex(s).PlainToken?;
      PlainLength(s, k.v);
    }
    if k == Lex(s) && k.PlainToken? {
      NothingSkipped(s);
      assert forall j :: 1 <= j < |k.v| ==> k.v[j] == s[j];
    }
  }

  /** A construct starts with a backtick, a star, an underscore or a bracket. */
  lemma OpensWith(k: Token, s: string)
    requires Opens(k, s)
    ensures s != "" && s[0] in {'`', '*', '_', '['}
  {
    hide IsMarker, WebTarget, Lower;
    assert k.Source() <= s;
    match k {
      case MarkToken(mark) =>
        MarkLength(mark);
        MarkStart(mark);
      case CodeToken(v) => assert k.Source()[0] == '`';
      case StrongToken(inner) => assert k.Source()[0] == '*';
      case EmToken(c, inner) => assert k.Source()[0] == c;
      case LinkToken(caption, href) => assert k.Source()[0] == '[';
      case PlainToken(_) =>
    }
  }

  lemma MarkStart(mark: string)
    requires IsMarker(mark)
    ensures mark[0] == '['
  {
    hide IsUuid;
  }

  /** A plain run passes over no construct. */
  lemma NothingSkipped(s: string)
    requires s != "" && Lex(s).PlainToken?
    ensures forall j, other :: 0 <= j < |Lex(s).v| ==> !Opens(other, s[j..])
  {
    hide Lex, Opens;
    forall j, other | 0 <= j < |Lex(s).v|
      ensures !Opens(other, s[j..])
    {
      if Opens(other, s[j..]) {
        OpensWith(other, s[j..]);
        assert s[j..][0] == s[j];
        assert s[0..] == s;
        OpensLex(other, s[j..]);
        OpensIsNotPlain(other, s[j..]);
      }
    }
  }

  lemma OpensIsNotPlain(k: Token, s: string)
    requires Opens(k, s)
    ensures !k.PlainToken?
  {
  }

  lemma PlainLength(s: string, v: string)
    requires v != "" && v <= s
    requires forall j :: 1 <= j < |v| ==> v[j] !in {'`', '*', '_', '['}
    requires |v| < |s| ==> s[|v|] in {'`', '*', '_', '['}
    ensures v == s[..PlainRun(s)]
  {
    var n := PlainRun(s);
    assert forall j :: 0 <= j < |v| ==> v[j] == s[j];
    assert v == s[..|v|];
  }

  // ---- the nodes tile the text --------------------------------------------------------

  /** The nodes, side by side, account for every character of `s`: plain and code nodes hold
      theirs verbatim, a citation is its marker, and the others hold, between their
      delimiters, a text whose footers collapse to what their kids account for. */
  ghost predicate Tiles(ns: seq<Node>, s: string)
    decreases |s|, 1
  {
    if ns == [] then s == ""
    else exists n :: 0 < n <= |s| && Tile(ns[0], s[..n]) && Tiles(ns[1..], s[n..])
  }

  ghost predicate Tile(node: Node, t: string)
    decreases |t|, 0
  {
    match node
    case Plain(v) => t == v
    case Code(v) => t == "`" + v + "`"
    case Cite(id, _) => IsMarker(t) && id == MemoryId(t)
    case Strong(kids) => |t| >= 4 && t[..2] == "**" == t[|t| - 2..] && Tiles(kids, Collapse(t[2..|t| - 2]))
    case Em(kids) =>
      |t| >= 3 && t[0] in {'*', '_'} && t[|t| - 1] == t[0] && Tiles(kids, Collapse(t[1..|t| - 1]))
    case Link(href, kids) =>
      && |t| >= |href| + 4
      && t[0] == '['
      && t[|t| - |href| - 3..] == "](" + href + ")"
      && Tiles(kids, Collapse(t[1..|t| - |href| - 3]))
  }

  lemma TilesOne(node: Node, s: string, n: nat, rest: seq<Node>)
    requires 0 < n <= |s| && Tile(node, s[..n]) && Tiles(rest, s[n..])
    ensures Tiles([node] + rest, s)
  {
    hide Tile;
    assert ([node] + rest)[1..] == rest;
  }

  lemma TilesFirst(ns: seq<Node>, s: string) returns (n: nat)
    requires ns != [] && Tiles(ns, s)
    ensures 0 < n <= |s| && Tile(ns[0], s[..n]) && Tiles(ns[1..], s[n..])
  {
    hide Tile;
    n :| 0 < n <= |s| && Tile(ns[0], s[..n]) && Tiles(ns[1..], s[n..]);
  }

  lemma TilesStep(node: Node, s: string, n: nat, rest: seq<Node>)
    requires 0 < n <= |s| && Tile(node, s[..n]) && Tiles(rest, s[n..])
    ensures Tiles(Beside([node], rest), s)
  {
    hide Tile, Tiles;
    if node.Plain? && rest != [] && rest[0].Plain? {
      var m := TilesFirst(rest, s[n..]);
      var merged := Plain(node.v + rest[0].v);
      PlainTiles(node, s[..n]);
      PlainTiles(rest[0], s[n..][..m]);
      assert s[..n + m] == s[..n] + s[n..][..m];
      PlainTiles(merged, s[..n + m]);
      assert s[n..][m..] == s[n + m..];
      TilesOne(merged, s, n + m, rest[1..]);
      assert Beside([node], rest) == [merged] + rest[1..];
    } else {
      TilesOne(node, s, n, rest);
    }
  }

  lemma PlainTiles(node: Node, t: string)
    requires node.Plain?
    ensures Tile(node, t) <==> t == node.v
  {
  }

  lemma {:induction false} TokenTiles(s: string)
    requires s != ""
    ensures Tile(TokenNode(s), Lex(s).Source())
    decreases |s|, 0
  {
    hide Lex, Collapse, Tree, Tiles, IsMarker;
    var t := Lex(s).Source();
    match Lex(s) {
      case StrongToken(inner) =>
        TreeTiles(inner);
        assert t[2..|t| - 2] == inner;
      case EmToken(c, inner) =>
        TreeTiles(inner);
        assert t[1..|t| - 1] == inner;
      case LinkToken(caption, href) =>
        TreeTiles(caption);
        assert t == "[" + (caption + ("](" + href + ")"));
        assert t[1..|t| - |href| - 3] == caption;
        assert t[|t| - |href| - 3..] == "](" + href + ")";
      case _ =>
    }
  }

  lemma {:induction false} ScanTiles(s: string)
    ensures Tiles(Scan(s), s)
    decreases |s|, 1
  {
    hide Lex, Tile, Beside, TokenNode;
    if s == "" {
    } else {
      var n := |Lex(s).Source()|;
      TokenTiles(s);
      assert s[..n] == Lex(s).Source();
      ScanTiles(s[n..]);
      TilesStep(TokenNode(s), s, n, Scan(s[n..]));
    }
  }

  /** The nodes of a line account for every character of its collapsed text, at every depth. */
  lemma {:induction false} TreeTiles(src: string)
    ensures Tiles(Tree(src), Collapse(src))
    decreases |src|, 2
  {
    ScanTiles(Collapse(src));
  }
}
