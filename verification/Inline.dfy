/**
 One line of markdown as inline nodes.
 */
module Inline {
  import opened Text
  import opened Marker

  datatype Node =
    | Plain(v: string)
    | Code(v: string)
    | Strong(kids: seq<Node>)
    | Em(kids: seq<Node>)
    | Link(href: string, kids: seq<Node>)
    | Cite(memoryId: string, n: nat)

  // ---- lexing one construct -----------------------------------------------------------

  /** One construct of the text, with the characters it is made of. */
  datatype Token =
    | MarkToken(mark: string)
    | CodeToken(v: string)
    | StrongToken(inner: string)
    | EmToken(c: char, inner: string)
    | LinkToken(caption: string, href: string)
    | PlainToken(v: string)
  {
    function Source(): string {
      match this
      case MarkToken(mark) => mark
      case CodeToken(v) => "`" + v + "`"
      case StrongToken(inner) => "**" + inner + "**"
      case EmToken(c, inner) => [c] + inner + [c]
      case LinkToken(caption, href) => "[" + caption + "](" + href + ")"
      case PlainToken(v) => v
    }
  }

  predicate IsSpecial(c: char) {
    c == '`' || c == '*' || c == '_' || c == '['
  }

  /** The length of the plain run at the start of `s`: up to the next special character after the first. */
  function PlainRun(s: string): (n: nat)
    requires s != ""
    ensures 1 <= n <= |s|
    ensures forall k :: 1 <= k < n ==> !IsSpecial(s[k])
    ensures n < |s| ==> IsSpecial(s[n])
  {
    1 + PlainPrefix(s[1..])
  }

  function PlainPrefix(s: string): (n: nat)
    ensures n <= |s|
    ensures forall k :: 0 <= k < n ==> !IsSpecial(s[k])
    ensures n < |s| ==> IsSpecial(s[n])
  {
    if s == "" || IsSpecial(s[0]) then 0 else 1 + PlainPrefix(s[1..])
  }

  /** The number of leading characters that may stand in a link target. */
  function TargetPrefix(s: string): (n: nat)
    ensures n <= |s|
    ensures forall k :: 0 <= k < n ==> s[k] != ')' && !IsSpace(s[k])
    ensures n < |s| ==> s[n] == ')' || IsSpace(s[n])
  {
    if s == "" || s[0] == ')' || IsSpace(s[0]) then 0 else 1 + TargetPrefix(s[1..])
  }

  /** Only web links and links inside the console survive. */
  predicate SafeTarget(href: string) {
    || "http://" <= Lower(href) || "https://" <= Lower(href) || "/" <= href || "#" <= href
  }

  /** The link that a text starting with `[` starts with, or the empty plain token. */
  function LinkAt(s: string): (k: Token)
    requires s != "" && s[0] == '['
    ensures k.LinkToken? || k == PlainToken("")
    ensures k.LinkToken? ==>
      && k.Source() <= s && ']' !in k.caption && SafeTarget(k.href)
      && forall j :: 0 <= j < |k.href| ==> k.href[j] != ')' && !IsSpace(k.href[j])
  {
    var close := IndexOf(s, "]", 1);
    if close < 0 || !OccursAt(s, "(", close + 1) then PlainToken("")
    else
      var caption := s[1..close];
      var rest := s[close + 2..];
      var n := TargetPrefix(rest);
      if n == 0 || n == |rest| || rest[n] != ')' || !SafeTarget(rest[..n]) then PlainToken("")
      else
        LinkFits(s, close, n);
        LinkToken(caption, rest[..n])
  }

  lemma LinkFits(s: string, close: nat, n: nat)
    requires s != "" && s[0] == '[' && 1 <= close && OccursAt(s, "]", close) && OccursAt(s, "(", close + 1)
    requires forall j: nat :: 1 <= j < close ==> !OccursAt(s, "]", j)
    requires n < |s[close + 2..]| && s[close + 2..][n] == ')'
    ensures ']' !in s[1..close]
    ensures LinkToken(s[1..close], s[close + 2..][..n]).Source() <= s
  {
    var caption, rest := s[1..close], s[close + 2..];
    assert s[close..close + 1] == "]" && s[close + 1..close + 2] == "(";
    assert s[close..close + 2] == "](" && s[..1] == "[";
    assert s == s[..1] + caption + s[close..close + 2] + rest;
    assert rest[n..n + 1] == ")" && rest == rest[..n] + rest[n..n + 1] + rest[n + 1..];
    assert s == "[" + caption + "](" + rest[..n] + ")" + rest[n + 1..];
    forall j | 1 <= j < close
      ensures s[j] != ']'
    {
      assert !OccursAt(s, "]", j);
    }
  }

  /** Whether an emphasis character at the start of `s` is not doubled. */
  predicate SingleAt(s: string)
    requires s != ""
  {
    (s[0] == '*' || s[0] == '_') && (|s| == 1 || s[1] != s[0])
  }

  lemma CodeFits(s: string, end: nat)
    requires s != "" && s[0] == '`' && 1 <= end && OccursAt(s, "`", end)
    requires forall k: nat :: 1 <= k < end ==> !OccursAt(s, "`", k)
    ensures CodeToken(s[1..end]).Source() <= s && '`' !in s[1..end]
  {
    ClosedBy(s, end, '`');
  }

  lemma EmFits(s: string, end: nat)
    requires s != "" && 1 <= end && OccursAt(s, [s[0]], end)
    requires forall k: nat :: 1 <= k < end ==> !OccursAt(s, [s[0]], k)
    ensures EmToken(s[0], s[1..end]).Source() <= s && s[0] !in s[1..end]
  {
    ClosedBy(s, end, s[0]);
  }

  lemma StrongFits(s: string, end: nat)
    requires OccursAt(s, "**", 0) && 2 <= end && OccursAt(s, "**", end)
    ensures StrongToken(s[2..end]).Source() <= s
  {
    assert s[..2] == "**" && s[end..end + 2] == "**";
    assert s == "**" + s[2..end] + "**" + s[end + 2..];
  }

  /** The construct that `s` starts with. */
  function Lex(s: string): (k: Token)
    requires s != ""
    ensures k.Source() <= s && k.Source() != ""
    ensures k.MarkToken? <==> StartsMarker(s)
    ensures k.MarkToken? ==> IsMarker(k.mark)
    ensures k.PlainToken? ==> k.v == s[..PlainRun(s)]
    ensures k.CodeToken? ==> '`' !in k.v
    ensures k.EmToken? ==> k.c in {'*', '_'} && k.inner != "" && k.c !in k.inner
  {
    var code := IndexOf(s, "`", 1);
    var strong := IndexOf(s, "**", 2);
    var em := IndexOf(s, [s[0]], 1);
    if StartsMarker(s) then MarkToken(s[..MARKER_LENGTH])
    else if s[0] == '`' && code > 0 then
      CodeFits(s, code);
      CodeToken(s[1..code])
    else if OccursAt(s, "**", 0) && strong > 1 then
      StrongFits(s, strong);
      StrongToken(s[2..strong])
    else if SingleAt(s) && em > 1 then
      EmFits(s, em);
      EmToken(s[0], s[1..em])
    else if s[0] == '[' && LinkAt(s).LinkToken? then LinkAt(s)
    else PlainToken(s[..PlainRun(s)])
  }

  /** What lies between an opening character and the first closing one. */
  lemma ClosedBy(s: string, end: nat, c: char)
    requires 1 <= end && OccursAt(s, [c], end)
    requires forall k: nat :: 1 <= k < end ==> !OccursAt(s, [c], k)
    ensures s == [s[0]] + s[1..end] + [c] + s[end + 1..]
    ensures c !in s[1..end]
  {
    assert s[end..end + 1] == [c];
    forall k | 1 <= k < end
      ensures s[k] != c
    {
      assert !OccursAt(s, [c], k);
    }
  }

  // ---- the tree of a text -------------------------------------------------------------

  /** Two runs of nodes side by side, adjacent plain nodes merged. */
  function Beside(a: seq<Node>, b: seq<Node>): seq<Node> {
    if a != [] && b != [] && a[|a| - 1].Plain? && b[0].Plain? then
      a[..|a| - 1] + [Plain(a[|a| - 1].v + b[0].v)] + b[1..]
    else a + b
  }

  /** The inline nodes of a source text, with every citation still unnumbered. */
  function Tree(src: string): seq<Node>
    decreases |src|, 2
  {
    Scan(Collapse(src))
  }

  /** The nodes of a text whose footers have been collapsed. */
  function Scan(s: string): seq<Node>
    decreases |s|, 1
  {
    if s == "" then []
    else Beside([TokenNode(s)], Scan(s[|Lex(s).Source()|..]))
  }

  /** The node of the construct that `s` starts with. */
  function TokenNode(s: string): Node
    requires s != ""
    decreases |s|, 0
  {
    match Lex(s)
    case MarkToken(mark) => Cite(MemoryId(mark), 0)
    case CodeToken(v) => Code(v)
    case StrongToken(inner) => Strong(Tree(inner))
    case EmToken(_, inner) => Em(Tree(inner))
    case LinkToken(caption, href) => Link(href, Tree(caption))
    case PlainToken(v) => Plain(v)
  }
}
