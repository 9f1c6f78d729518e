/**
 The inline parser without its shortcut: where no construct opens, one character at a time.
 */
module CharByChar {
  import opened Text
  import opened Marker
  import opened Inline
  import opened InlineParser
  import opened Tiling

  function SlowTree(src: string): seq<Node>
    decreases |src|, 2
  {
    SlowScan(Collapse(src))
  }

  /** Take the construct that opens here, or else one character. */
  function SlowScan(s: string): seq<Node>
    decreases |s|, 1
  {
    if s == "" then []
    else if Lex(s).PlainToken? then Beside([Plain([s[0]])], SlowScan(s[1..]))
    else Beside([SlowNode(s)], SlowScan(s[|Lex(s).Source()|..]))
  }

  function SlowNode(s: string): Node
    requires s != "" && !Lex(s).PlainToken?
    decreases |s|, 0
  {
    match Lex(s)
    case MarkToken(mark) => Cite(MemoryId(mark), 0)
    case CodeToken(v) => Code(v)
    case StrongToken(inner) => Strong(SlowTree(inner))
    case EmToken(_, inner) => Em(SlowTree(inner))
    case LinkToken(caption, href) => Link(href, SlowTree(caption))
  }

  lemma OneMore(c: char, v: string, rest: seq<Node>)
    requires v != ""
    ensures Beside([Plain([c])], Beside([Plain(v)], rest)) == Beside([Plain([c] + v)], rest)
  {
    PushBeside([Plain([c])], Plain(v), rest);
    assert Push([Plain([c])], Plain(v)) == [Plain([c] + v)];
  }

  /** No construct opens at a character that none starts with, nor at the next ones like it. */
  lemma RunGoesOn(s: string)
    requires |s| > 1 && s[1] !in {'`', '*', '_', '['}
    ensures Lex(s[1..]).PlainToken? && PlainRun(s) == 1 + PlainRun(s[1..])
  {
    hide Lex, Opens;
    var t := s[1..];
    if !Lex(t).PlainToken? {
      LexOpens(t);
      OpensWith(Lex(t), t);
    }
  }

  lemma RunEnds(s: string)
    requires s != "" && (|s| == 1 || s[1] in {'`', '*', '_', '['})
    ensures PlainRun(s) == 1
  {
  }

  /** One character after the other adds up to the plain run. */
  lemma {:induction false} RunSlow(s: string)
    requires s != "" && Lex(s).PlainToken?
    ensures SlowScan(s) == Beside([Plain(s[..PlainRun(s)])], SlowScan(s[PlainRun(s)..]))
    decreases |s|
  {
    hide Lex, Beside, PlainRun, SlowNode;
    var n := PlainRun(s);
    if |s| == 1 || s[1] in {'`', '*', '_', '['} {
      RunEnds(s);
      assert s[..1] == [s[0]];
    } else {
      var t := s[1..];
      RunGoesOn(s);
      RunSlow(t);
      assert t[n - 1..] == s[n..];
      OneMore(s[0], t[..n - 1], SlowScan(s[n..]));
      assert [s[0]] + t[..n - 1] == s[..n];
    }
  }

  lemma {:induction false} NodeSlow(s: string)
    requires s != "" && !Lex(s).PlainToken?
    ensures TokenNode(s) == SlowNode(s)
    decreases |s|, 0
  {
    hide Lex, Tree, SlowTree;
    match Lex(s) {
      case StrongToken(inner) => TreeSlow(inner);
      case EmToken(_, inner) => TreeSlow(inner);
      case LinkToken(caption, _) => TreeSlow(caption);
      case _ =>
    }
  }

  lemma {:induction false} ScanSlow(s: string)
    ensures Scan(s) == SlowScan(s)
    decreases |s|, 1
  {
    hide Lex, Beside;
    if s == "" {
    } else {
      ScanSlow(s[|Lex(s).Source()|..]);
      if Lex(s).PlainToken? {
        RunSlow(s);
      } else {
        NodeSlow(s);
      }
    }
  }

  /** Running over plain characters changes no parse. */
  lemma {:induction false} TreeSlow(src: string)
    ensures Tree(src) == SlowTree(src)
    decreases |src|, 2
  {
    ScanSlow(Collapse(src));
  }

  // ---- links ---------------------------------------------------------------------------------

  /** Every link, at every depth, leads to the web or into the console. */
  ghost predicate SafeLinks(ns: seq<Node>) {
    ns == [] || (SafeNode(ns[0]) && SafeLinks(ns[1..]))
  }

  ghost predicate SafeNode(n: Node) {
    match n
    case Strong(kids) => SafeLinks(kids)
    case Em(kids) => SafeLinks(kids)
    case Link(href, kids) => WebTarget(href) && SafeLinks(kids)
    case _ => true
  }

  lemma SafeBeside(n: Node, rest: seq<Node>)
    requires SafeNode(n) && SafeLinks(rest)
    ensures SafeLinks(Beside([n], rest))
  {
    var r := Beside([n], rest);
    assert r[1..] == if rest != [] && n.Plain? && rest[0].Plain? then rest[1..] else rest;
  }

  lemma {:induction false} ScanSafe(s: string)
    ensures SafeLinks(Scan(s))
    decreases |s|, 1
  {
    hide Lex, Beside, SafeLinks, WebTarget;
    if s == "" {
      NothingUnsafe();
    } else {
      ScanSafe(s[|Lex(s).Source()|..]);
      match Lex(s) {
        case StrongToken(inner) => TreeSafe(inner);
        case EmToken(_, inner) => TreeSafe(inner);
        case LinkToken(caption, href) =>
          TreeSafe(caption);
          LinkSafe(s);
        case _ =>
      }
      SafeBeside(TokenNode(s), Scan(s[|Lex(s).Source()|..]));
    }
  }

  lemma NothingUnsafe()
    ensures SafeLinks([])
  {
  }

  lemma LinkSafe(s: string)
    requires s != "" && Lex(s).LinkToken?
    ensures WebTarget(Lex(s).href)
  {
    hide Lex, WebTarget;
    LexOpens(s);
  }

  /** No parse has a link that leads anywhere else. */
  lemma {:induction false} TreeSafe(src: string)
    ensures SafeLinks(Tree(src))
    decreases |src|, 2
  {
    hide SafeLinks;
    ScanSafe(Collapse(src));
  }
}
