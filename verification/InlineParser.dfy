/**
 The inline parser as it runs: a cursor loop that pushes nodes and hands every citation
 to the numbering shared by the whole document.
 */
module InlineParser {
  import opened Text
  import opened Marker
  import opened Numbering
  import opened Inline

  /** The ids of the citations of a run of nodes, left to right and at every depth. */
  function Ids(ns: seq<Node>): seq<string> {
    if ns == [] then [] else IdsOfNode(ns[0]) + Ids(ns[1..])
  }

  function IdsOfNode(n: Node): seq<string> {
    match n
    case Cite(id, _) => [id]
    case Strong(kids) => Ids(kids)
    case Em(kids) => Ids(kids)
    case Link(_, kids) => Ids(kids)
    case _ => []
  }

  /** The nodes with every citation numbered by the place of its id in `order`. */
  function Stamp(ns: seq<Node>, order: seq<string>): (r: seq<Node>)
    ensures |r| == |ns|
  {
    if ns == [] then [] else [StampNode(ns[0], order)] + Stamp(ns[1..], order)
  }

  function StampNode(n: Node, order: seq<string>): Node {
    match n
    case Cite(id, _) => Cite(id, Find(order, id) + 1)
    case Strong(kids) => Strong(Stamp(kids, order))
    case Em(kids) => Em(Stamp(kids, order))
    case Link(href, kids) => Link(href, Stamp(kids, order))
    case _ => n
  }

  /** `push`: a plain node is merged into a plain node before it, and never pushed empty. */
  function Push(out: seq<Node>, n: Node): seq<Node> {
    if n.Plain? && out != [] && out[|out| - 1].Plain? then
      out[..|out| - 1] + [Plain(out[|out| - 1].v + n.v)]
    else if !n.Plain? || n.v != "" then out + [n]
    else out
  }

  // ---- how pushing, numbering and collecting ids go together --------------------------

  lemma {:induction false} IdsConcat(a: seq<Node>, b: seq<Node>)
    ensures Ids(a + b) == Ids(a) + Ids(b)
  {
    if a == [] {
      assert a + b == b;
    } else {
      assert (a + b)[1..] == a[1..] + b;
      IdsConcat(a[1..], b);
    }
  }

  lemma IdsOne(n: Node)
    ensures Ids([n]) == IdsOfNode(n)
  {
    assert [n][1..] == [];
  }

  lemma {:induction false} StampConcat(a: seq<Node>, b: seq<Node>, order: seq<string>)
    ensures Stamp(a + b, order) == Stamp(a, order) + Stamp(b, order)
  {
    if a == [] {
      assert a + b == b;
    } else {
      assert (a + b)[1..] == a[1..] + b;
      StampConcat(a[1..], b, order);
    }
  }

  lemma StampOne(n: Node, order: seq<string>)
    ensures Stamp([n], order) == [StampNode(n, order)]
  {
    assert [n][1..] == [];
  }

  /** The last of a run of nodes, apart. */
  lemma StampLast(out: seq<Node>, order: seq<string>)
    requires out != []
    ensures var k := |out| - 1; Stamp(out, order) == Stamp(out[..k], order) + [StampNode(out[k], order)]
  {
    var k := |out| - 1;
    assert out == out[..k] + [out[k]];
    StampConcat(out[..k], [out[k]], order);
    StampOne(out[k], order);
  }

  lemma StampPush(out: seq<Node>, n: Node, order: seq<string>)
    ensures Stamp(Push(out, n), order) == Push(Stamp(out, order), StampNode(n, order))
  {
    hide Stamp;
    if n.Plain? && out != [] {
      StampLast(out, order);
    }
    var pushed := Push(out, n);
    if pushed != [] {
      StampLast(pushed, order);
    }
    StampOne(n, order);
    StampConcat(out, [n], order);
  }

  lemma IdsPush(out: seq<Node>, n: Node)
    ensures Ids(Push(out, n)) == Ids(out) + IdsOfNode(n)
  {
    hide Ids;
    IdsOne(n);
    if n.Plain? && out != [] && out[|out| - 1].Plain? {
      var k := |out| - 1;
      var merged := Plain(out[k].v + n.v);
      assert out == out[..k] + [out[k]];
      IdsConcat(out[..k], [out[k]]);
      IdsConcat(out[..k], [merged]);
      IdsOne(out[k]);
      IdsOne(merged);
    } else {
      IdsConcat(out, [n]);
    }
  }

  /** Numbers already given survive any growth of the order. */
  lemma {:induction false} StampStays(ns: seq<Node>, order: seq<string>, longer: seq<string>)
    requires order <= longer
    requires forall id :: id in Ids(ns) ==> id in order
    ensures Stamp(ns, longer) == Stamp(ns, order)
  {
    if ns == [] {
    } else {
      hide IdsOfNode, StampNode;
      assert forall id :: id in IdsOfNode(ns[0]) || id in Ids(ns[1..]) ==> id in Ids(ns);
      StampStays(ns[1..], order, longer);
      StampNodeStays(ns[0], order, longer);
    }
  }

  lemma {:induction false} StampNodeStays(n: Node, order: seq<string>, longer: seq<string>)
    requires order <= longer
    requires forall id :: id in IdsOfNode(n) ==> id in order
    ensures StampNode(n, longer) == StampNode(n, order)
  {
    hide Ids, Stamp;
    match n
    case Cite(id, _) =>
      assert id in IdsOfNode(n);
      FindStays(order, longer, id);
    case Strong(kids) => StampStays(kids, order, longer);
    case Em(kids) => StampStays(kids, order, longer);
    case Link(_, kids) => StampStays(kids, order, longer);
    case _ =>
  }

  /** Pushing a node before reading on is the same as reading on and putting the node in front. */
  lemma PushBeside(out: seq<Node>, n: Node, rest: seq<Node>)
    requires n.Plain? ==> n.v != ""
    ensures Beside(Push(out, n), rest) == Beside(out, Beside([n], rest))
  {
    var joined := Beside([n], rest);
    if n.Plain? && out != [] && out[|out| - 1].Plain? {
      assert out == out[..|out| - 1] + [out[|out| - 1]];
      PushMerged(out[..|out| - 1], out[|out| - 1].v, n.v, rest);
    } else if n.Plain? && rest != [] && rest[0].Plain? {
      assert (out + [n])[..|out|] == out;
      assert joined == [Plain(n.v + rest[0].v)] + rest[1..];
    } else {
      assert joined == [n] + rest;
      assert out + [n] + rest == out + ([n] + rest);
    }
  }

  lemma PushMerged(before: seq<Node>, v: string, w: string, rest: seq<Node>)
    ensures Beside(Push(before + [Plain(v)], Plain(w)), rest) == Beside(before + [Plain(v)], Beside([Plain(w)], rest))
  {
    var out := before + [Plain(v)];
    assert out[..|before|] == before;
    var pushed := before + [Plain(v + w)];
    assert pushed[..|before|] == before;
    if rest != [] && rest[0].Plain? {
      var x := rest[0].v;
      assert Beside([Plain(w)], rest) == [Plain(w + x)] + rest[1..];
      assert (v + w) + x == v + (w + x);
      assert Beside(pushed, rest) == before + [Plain(v + w + x)] + rest[1..];
    } else {
      assert Beside([Plain(w)], rest) == [Plain(w)] + rest;
    }
  }

  lemma NothingDone(s: seq<Node>, order: seq<string>)
    ensures Beside([], s) == s == Beside(s, [])
    ensures Stamp([], order) == [] && FirstSeen(order, []) == order == FirstSeen(order, Ids([]))
  {
  }

  lemma TreeScans(src: string)
    ensures Tree(src) == Scan(Collapse(src)) && Scan("") == []
  {
  }

  /** The loop invariant's step: one construct read, its node pushed. */
  lemma ScanStep(text: string, i: nat, done: seq<Node>)
    requires i < |text|
    requires Beside(done, Scan(text[i..])) == Scan(text)
    ensures var k := i + |Lex(text[i..]).Source()|;
            k <= |text| && Beside(Push(done, TokenNode(text[i..])), Scan(text[k..])) == Scan(text)
  {
    hide Lex, Beside, Push;
    var rest := text[i..];
    var m := |Lex(rest).Source()|;
    assert rest[m..] == text[i + m..];
    assert TokenNode(rest).Plain? ==> TokenNode(rest).v != "";
    PushBeside(done, TokenNode(rest), Scan(rest[m..]));
  }

  /** Numbering one more node: the nodes so far keep their numbers. */
  lemma NumberedStep(done: seq<Node>, node: Node, start: seq<string>, before: seq<string>, after: seq<string>)
    requires before == FirstSeen(start, Ids(done))
    requires after == FirstSeen(before, IdsOfNode(node))
    ensures after == FirstSeen(start, Ids(Push(done, node)))
    ensures Stamp(Push(done, node), after) == Push(Stamp(done, before), StampNode(node, after))
  {
    hide FirstSeen, Push, Stamp, StampNode, Ids, IdsOfNode;
    IdsPush(done, node);
    FirstSeenConcat(start, Ids(done), IdsOfNode(node));
    StampPush(done, node, after);
    StampStays(done, before, after);
  }

  /** Parse one line of markdown, numbering its citations after those already in `num`. */
  method ParseInline(src: string, num: Numbering) returns (out: seq<Node>)
    modifies num
    ensures num.order == FirstSeen(old(num.order), Ids(Tree(src)))
    ensures out == Stamp(Tree(src), num.order)
    decreases |src|, 1
  {
    hide *;
    var text := Collapse(src);
    TreeScans(src);
    out := [];
    ghost var done: seq<Node> := [];
    ghost var start := num.order;
    NothingDone(Scan(text), start);
    var i := 0;
    assert text[i..] == text;
    while i < |text|
      invariant i <= |text|
      invariant Beside(done, Scan(text[i..])) == Scan(text)
      invariant num.order == FirstSeen(start, Ids(done))
      invariant out == Stamp(done, num.order)
      decreases |text| - i
    {
      ScanStep(text, i, done);
      ghost var token := TokenNode(text[i..]);
      ghost var before := num.order;
      var node, length := ParseToken(text[i..], num);
      NumberedStep(done, token, start, before, num.order);
      out := Push(out, node);
      done := Push(done, token);
      i := i + length;
    }
    assert text[i..] == "";
    NothingDone(done, start);
  }

  /** One turn of that loop: the construct at the cursor as a node, and how far it reaches. */
  method ParseToken(rest: string, num: Numbering) returns (node: Node, length: nat)
    requires rest != ""
    modifies num
    ensures length == |Lex(rest).Source()|
    ensures num.order == FirstSeen(old(num.order), IdsOfNode(TokenNode(rest)))
    ensures node == StampNode(TokenNode(rest), num.order)
    decreases |rest|, 0
  {
    hide FirstSeen, Stamp, Ids, Tree, LinkAt, IndexOf, SingleAt, PlainRun, IsMarker, MemoryId;
    if StartsMarker(rest) {
      var id := MemoryId(rest[..MARKER_LENGTH]);
      var n := num.NumberFor(id);
      return Cite(id, n), MARKER_LENGTH;
    }
    var ch := rest[0];
    if ch == '`' {
      var end := IndexOf(rest, "`", 1);
      if end > 0 {
        NothingDone([], num.order);
        return Code(rest[1..end]), end + 1;
      }
    }
    if OccursAt(rest, "**", 0) {
      var end := IndexOf(rest, "**", 2);
      if end > 1 {
        var kids := ParseInline(rest[2..end], num);
        return Strong(kids), end + 2;
      }
    }
    if SingleAt(rest) {
      var end := IndexOf(rest, [ch], 1);
      if end > 1 {
        var kids := ParseInline(rest[1..end], num);
        return Em(kids), end + 1;
      }
    }
    if ch == '[' {
      var link := LinkAt(rest);
      if link.LinkToken? {
        var kids := ParseInline(link.caption, num);
        return Link(link.href, kids), |link.Source()|;
      }
    }
    NothingDone([], num.order);
    return Plain(rest[..PlainRun(rest)]), PlainRun(rest);
  }
}
