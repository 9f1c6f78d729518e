/**
 Citation markers `[m:<uuid>]` and the evidence footers `<sub>[m:<uuid>]</sub>` that
 collapse to them.
 */
module Marker {
  import opened Text

  const MARKER_LENGTH: nat := 40

  predicate IsUuid(u: string) {
    |u| == 36
    && forall k :: 0 <= k < 36 ==> if k in {8, 13, 18, 23} then u[k] == '-' else IsHex(u[k])
  }

  /** A marker, or what the `i` flag of the footer expression also takes for one: `[M:<uuid>]`. */
  predicate IsLooseMarker(m: string) {
    |m| == MARKER_LENGTH && m[0] == '[' && LowerChar(m[1]) == 'm' && m[2] == ':'
    && IsUuid(m[3..39]) && m[39] == ']'
  }

  predicate IsMarker(m: string) {
    IsLooseMarker(m) && m[1] == 'm'
  }

  predicate StartsMarker(s: string) {
    |s| >= MARKER_LENGTH && IsMarker(s[..MARKER_LENGTH])
  }

  /** The memory id of a marker: its uuid, lower-cased. */
  function MemoryId(m: string): string
    requires |m| == MARKER_LENGTH
  {
    Lower(m[3..39])
  }

  /** The memory ids of the markers of a text, left to right. */
  function Markers(s: string): seq<string> {
    if s == "" then []
    else if StartsMarker(s) then [MemoryId(s[..MARKER_LENGTH])] + Markers(s[MARKER_LENGTH..])
    else Markers(s[1..])
  }

  /** A footer cut into its opening tag, white space, marker, white space and closing tag. */
  datatype Footer = NoFooter | FooterOf(open: string, before: string, mark: string, after: string, close: string)
  {
    function Text(): string
      requires FooterOf?
    {
      open + (before + (mark + (after + close)))
    }

    ghost predicate Valid()
      requires FooterOf?
    {
      && Lower(open) == "<sub>"
      && (forall k :: 0 <= k < |before| ==> IsSpace(before[k]))
      && IsLooseMarker(mark)
      && (forall k :: 0 <= k < |after| ==> IsSpace(after[k]))
      && Lower(close) == "</sub>"
    }
  }

  /** The footer that `s` starts with, if any. */
  function FooterAt(s: string): (f: Footer)
    ensures f.FooterOf? ==> f.Valid() && f.Text() <= s && |f.mark| < |f.Text()| && s[0] == '<'
  {
    assert |s| >= 5 ==> Lower(s[..5])[0] == LowerChar(s[0]);
    if |s| < 5 || Lower(s[..5]) != "<sub>" then NoFooter else AfterOpen(s[..5], s[5..])
  }

  function AfterOpen(open: string, s: string): (f: Footer)
    requires Lower(open) == "<sub>"
    ensures f.FooterOf? ==> f.Valid() && f.Text() <= open + s && |f.mark| < |f.Text()|
  {
    var n := Spaces(s);
    assert s[..n] + s[n..] == s;
    AtMark(open, s[..n], s[n..])
  }

  lemma Assembled(open: string, before: string, mark: string, after: string, close: string, rest: string)
    ensures open + (before + (mark + (after + (close + rest)))) ==
            FooterOf(open, before, mark, after, close).Text() + rest
  {
    var c := after + close;
    assert after + (close + rest) == c + rest;
    var b := mark + c;
    assert mark + (c + rest) == b + rest;
    assert before + (b + rest) == (before + b) + rest;
  }

  function AtMark(open: string, before: string, s: string): (f: Footer)
    requires Lower(open) == "<sub>" && forall k :: 0 <= k < |before| ==> IsSpace(before[k])
    ensures f.FooterOf? ==> f.Valid() && f.Text() <= open + (before + s) && |f.mark| < |f.Text()|
  {
    if |s| < MARKER_LENGTH || !IsLooseMarker(s[..MARKER_LENGTH]) then NoFooter
    else
      var t := s[MARKER_LENGTH..];
      assert s == s[..MARKER_LENGTH] + t;
      AtClose(open, before, s[..MARKER_LENGTH], t)
  }

  function AtClose(open: string, before: string, mark: string, s: string): (f: Footer)
    requires Lower(open) == "<sub>" && forall k :: 0 <= k < |before| ==> IsSpace(before[k])
    requires IsLooseMarker(mark)
    ensures f.FooterOf? ==> f.Valid() && f.Text() <= open + (before + (mark + s)) && |f.mark| < |f.Text()|
  {
    var n := Spaces(s);
    var z := s[n..];
    if |z| < 6 || Lower(z[..6]) != "</sub>" then NoFooter
    else
      var f := FooterOf(open, before, mark, s[..n], z[..6]);
      assert s == f.after + (f.close + z[6..]);
      Assembled(open, before, mark, f.after, f.close, z[6..]);
      f
  }

  function Mark(uuid: string): string {
    "[m:" + uuid + "]"
  }

  /** Every footer replaced by its bare marker, leftmost first and without overlap. */
  function Collapse(s: string): (r: string)
    ensures |r| <= |s|
  {
    if s == "" then ""
    else
      var f := FooterAt(s);
      if f.FooterOf? then Mark(f.mark[3..39]) + Collapse(s[|f.Text()|..]) else [s[0]] + Collapse(s[1..])
  }

  // ---- what markers are made of -------------------------------------------------------

  predicate InMarker(c: char) {
    c == '[' || c == 'm' || c == ':' || c == ']' || c == '-' || IsHex(c)
  }

  lemma MarkerCharacters(m: string)
    requires IsMarker(m)
    ensures forall k :: 0 <= k < |m| ==> InMarker(m[k])
    ensures forall k :: 1 <= k < |m| ==> m[k] != '['
    ensures forall k :: 0 <= k < |m| - 1 ==> m[k] != ']'
  {
    var u := m[3..39];
    assert forall k :: 3 <= k < 39 ==> m[k] == u[k - 3];
  }

  lemma MarkIsMarker(uuid: string)
    requires IsUuid(uuid)
    ensures IsMarker(Mark(uuid)) && MemoryId(Mark(uuid)) == Lower(uuid)
  {
    assert Mark(uuid)[3..39] == uuid;
  }

  /** A prefix of a text decides whether it starts with a marker. */
  lemma StartsMarkerPrefix(s: string, t: string)
    requires s <= t && StartsMarker(s)
    ensures StartsMarker(t) && t[..MARKER_LENGTH] == s[..MARKER_LENGTH]
  {
    assert t[..MARKER_LENGTH] == s[..MARKER_LENGTH];
  }

  /** Skipping over characters at none of which a marker starts loses no marker. */
  lemma {:induction false} MarkersSkip(s: string, n: nat)
    requires n <= |s|
    requires forall k :: 0 <= k < n ==> !StartsMarker(s[k..])
    ensures Markers(s) == Markers(s[n..])
  {
    if n == 0 {
      assert s[0..] == s;
    } else {
      assert s[0..] == s;
      var t := s[1..];
      assert forall k :: 0 <= k < n - 1 ==> t[k..] == s[k + 1..];
      MarkersSkip(t, n - 1);
      assert t[n - 1..] == s[n..];
    }
  }

  /** No marker reaches across a character that markers are not made of. */
  lemma {:induction false} MarkersSplit(a: string, c: char, b: string)
    requires !InMarker(c)
    ensures Markers(a + [c] + b) == Markers(a) + Markers(b)
  {
    var s := a + [c] + b;
    if StartsMarker(s) {
      MarkerCharacters(s[..MARKER_LENGTH]);
      assert s[|a|] == c;
      assert MARKER_LENGTH <= |a|;
      assert s[..MARKER_LENGTH] == a[..MARKER_LENGTH];
      MarkersSplit(a[MARKER_LENGTH..], c, b);
      assert s[MARKER_LENGTH..] == a[MARKER_LENGTH..] + [c] + b;
    } else if a == "" {
      assert s[1..] == b;
    } else {
      if StartsMarker(a) {
        assert a <= s;
        StartsMarkerPrefix(a, s);
        assert false;
      }
      MarkersSplit(a[1..], c, b);
      assert s[1..] == a[1..] + [c] + b;
    }
  }

  /** A text has no markers exactly when none starts anywhere in it. */
  lemma {:induction false} NoMarkers(s: string)
    ensures Markers(s) == [] <==> forall k :: 0 <= k < |s| ==> !StartsMarker(s[k..])
  {
    if forall k :: 0 <= k < |s| ==> !StartsMarker(s[k..]) {
      MarkersSkip(s, |s|);
    } else if StartsMarker(s) {
      assert s[0..] == s;
    } else {
      NoMarkers(s[1..]);
      var k :| 0 <= k < |s| && StartsMarker(s[k..]);
      assert s[0..] == s;
      assert s[1..][k - 1..] == s[k..];
    }
  }

  // ---- collapsing footers -------------------------------------------------------------

  lemma SpacesBefore(w: string, s: string)
    requires forall k :: 0 <= k < |w| ==> IsSpace(w[k])
    requires s != "" && !IsSpace(s[0])
    ensures Spaces(w + s) == |w|
  {
    assert (w + s)[|w|] == s[0];
    assert forall k :: 0 <= k < |w| ==> (w + s)[k] == w[k];
  }

  lemma CloseThen(open: string, before: string, mark: string, after: string, close: string, rest: string)
    requires Lower(open) == "<sub>" && forall k :: 0 <= k < |before| ==> IsSpace(before[k])
    requires IsLooseMarker(mark)
    requires (forall k :: 0 <= k < |after| ==> IsSpace(after[k])) && Lower(close) == "</sub>"
    ensures AtClose(open, before, mark, after + (close + rest)) == FooterOf(open, before, mark, after, close)
  {
    hide IsLooseMarker;
    var z := close + rest;
    assert LowerChar(z[0]) == Lower(close)[0] == '<';
    SpacesBefore(after, z);
    assert (after + z)[|after|..] == z && (after + z)[..|after|] == after && z[..6] == close;
  }

  lemma MarkThenClose(open: string, before: string, mark: string, s: string)
    requires Lower(open) == "<sub>" && forall k :: 0 <= k < |before| ==> IsSpace(before[k])
    requires IsLooseMarker(mark)
    ensures AtMark(open, before, mark + s) == AtClose(open, before, mark, s)
  {
    hide IsUuid, AtClose;
    assert (mark + s)[..MARKER_LENGTH] == mark && (mark + s)[MARKER_LENGTH..] == s;
  }

  lemma OpenThenMark(open: string, before: string, s: string)
    requires Lower(open) == "<sub>" && forall k :: 0 <= k < |before| ==> IsSpace(before[k])
    requires s != "" && !IsSpace(s[0])
    ensures FooterAt(open + (before + s)) == AtMark(open, before, s)
  {
    hide AtMark;
    var t := open + (before + s);
    assert t[..5] == open && t[5..] == before + s;
    SpacesBefore(before, s);
    assert (before + s)[|before|..] == s && (before + s)[..|before|] == before;
  }

  /** The characters of a footer decide that it is one, whatever follows. */
  lemma FooterThen(f: Footer, rest: string)
    requires f.FooterOf? && f.Valid()
    ensures FooterAt(f.Text() + rest) == f
  {
    hide FooterAt, AtMark, AtClose, IsUuid;
    Assembled(f.open, f.before, f.mark, f.after, f.close, rest);
    var m := f.mark + (f.after + (f.close + rest));
    assert m[0] == f.mark[0] == '[';
    OpenThenMark(f.open, f.before, m);
    MarkThenClose(f.open, f.before, f.mark, f.after + (f.close + rest));
    CloseThen(f.open, f.before, f.mark, f.after, f.close, rest);
  }

  lemma FooterPrefix(s: string, t: string)
    requires FooterAt(s).FooterOf? && FooterAt(s).Text() <= t
    ensures FooterAt(t) == FooterAt(s)
  {
    hide FooterAt;
    var f := FooterAt(s);
    assert t == f.Text() + t[|f.Text()|..];
    FooterThen(f, t[|f.Text()|..]);
  }

  /** A text in which every footer, wherever it starts, has a proper marker. */
  ghost predicate Settled(s: string) {
    forall k :: 0 <= k < |s| && FooterAt(s[k..]).FooterOf? ==> IsMarker(FooterAt(s[k..]).mark)
  }

  /** Any stretch of a settled text is settled. */
  lemma SettledPart(s: string, from: nat, to: nat)
    requires from <= to <= |s| && Settled(s)
    ensures Settled(s[from..to])
  {
    hide FooterAt;
    var t := s[from..to];
    forall k | 0 <= k < |t| && FooterAt(t[k..]).FooterOf?
      ensures IsMarker(FooterAt(t[k..]).mark)
    {
      assert t[k..] <= s[from + k..];
      FooterPrefix(t[k..], s[from + k..]);
    }
  }

  /** A run of characters in which every `[` is followed by something other than `m`. */
  ghost predicate Unmarked(w: string) {
    forall k :: 0 <= k < |w| && w[k] == '[' ==> k + 1 < |w| && w[k + 1] != 'm'
  }

  lemma CollapseWrites(s: string)
    ensures s != "" && FooterAt(s).FooterOf? ==> |Collapse(s)| > 1 && Collapse(s)[0] == '[' && Collapse(s)[1] == 'm'
  {
    hide FooterAt;
  }

  /** Such a run, at the start of a collapsed text, was there before collapsing. */
  lemma {:induction false} CollapseVerbatim(s: string, w: string)
    requires Unmarked(w) && w <= Collapse(s)
    ensures w <= s
  {
    hide FooterAt;
    if w == "" {
    } else {
      var f := FooterAt(s);
      CollapseWrites(s);
      assert w[0] == '[' ==> w[1] != 'm' && w[1] == Collapse(s)[1];
      if f.FooterOf? {
        assert false;
      }
      var v := w[1..];
      assert forall k :: 0 <= k < |v| ==> v[k] == w[k + 1];
      assert Collapse(s)[1..] == Collapse(s[1..]);
      CollapseVerbatim(s[1..], v);
      assert s == [s[0]] + s[1..] && w == [w[0]] + v;
    }
  }

  lemma FooterCharacters(f: Footer)
    requires f.FooterOf? && f.Valid() && !IsMarker(f.mark)
    ensures Unmarked(f.Text())
  {
    TagCharacters(f.open);
    TagCharacters(f.close);
    var u := f.mark[3..39];
    assert forall j :: 3 <= j < 39 ==> f.mark[j] == u[j - 3];
    assert forall j :: 1 <= j < 40 ==> f.mark[j] != '[';
    UnmarkedConcat(f.after, f.close);
    UnmarkedConcat(f.mark, f.after + f.close);
    UnmarkedConcat(f.before, f.mark + (f.after + f.close));
    UnmarkedConcat(f.open, f.before + (f.mark + (f.after + f.close)));
  }

  lemma UnmarkedConcat(v: string, w: string)
    requires Unmarked(v) && Unmarked(w)
    ensures Unmarked(v + w)
  {
  }

  lemma TagCharacters(tag: string)
    requires Lower(tag) == "<sub>" || Lower(tag) == "</sub>"
    ensures forall k :: 0 <= k < |tag| ==> tag[k] != '[' && !IsSpace(tag[k])
  {
    assert forall k :: 0 <= k < |tag| ==> Lower(tag)[k] == LowerChar(tag[k]);
  }

  /** One pass leaves no footer with a capital `M`: what it wrote has a small one, and what it
      did not write it had found to be no footer. */
  lemma {:induction false} CollapseSettles(s: string)
    ensures Settled(Collapse(s))
  {
    hide FooterAt;
    var t := Collapse(s);
    if s == "" {
    } else {
      var f := FooterAt(s);
      var n := if f.FooterOf? then |f.Text()| else 1;
      var done := if f.FooterOf? then Mark(f.mark[3..39]) else [s[0]];
      var rest := Collapse(s[n..]);
      CollapseSettles(s[n..]);
      forall k | 0 <= k < |t| && FooterAt(t[k..]).FooterOf?
        ensures IsMarker(FooterAt(t[k..]).mark)
      {
        var g := FooterAt(t[k..]);
        if k >= |done| {
          assert t[k..] == rest[k - |done|..];
        } else if f.FooterOf? {
          MarkIsMarker(f.mark[3..39]);
          MarkerCharacters(done);
          assert false;
        } else if !IsMarker(g.mark) {
          assert t[k..] == t;
          FooterCharacters(g);
          CollapseVerbatim(s, g.Text());
          FooterPrefix(t, s);
          assert false;
        }
      }
    }
  }

  /** Collapsing copies a marker that does not follow a footer's opening tag. */
  lemma {:induction false} CollapseCopies(s: string, n: nat)
    requires n <= |s|
    requires forall k :: 0 <= k < n ==> s[k] != '<'
    ensures Collapse(s) == s[..n] + Collapse(s[n..])
  {
    hide FooterAt;
    if n > 0 {
      var f := FooterAt(s);
      if f.FooterOf? {
        assert false;
      }
      CollapseCopies(s[1..], n - 1);
      assert s[1..][n - 1..] == s[n..];
      assert s[..n] == [s[0]] + s[1..][..n - 1];
    } else {
      assert s[0..] == s;
    }
  }

  /** Collapsing makes a text shorter or leaves it alone. */
  lemma {:induction false} CollapseShrinks(s: string)
    ensures |Collapse(s)| < |s| || Collapse(s) == s
  {
    hide FooterAt;
    if s == "" {
    } else if FooterAt(s).FooterOf? {
      assert |Mark(FooterAt(s).mark[3..39])| == 40;
    } else {
      CollapseShrinks(s[1..]);
      assert s == [s[0]] + s[1..];
    }
  }

  /** No footer reaches across a character that footers are not made of. */
  lemma FooterWithin(f: Footer, a: string, c: char, b: string)
    requires f.FooterOf? && f.Valid() && f.Text() <= a + [c] + b
    requires !InFooter(c)
    ensures f.Text() <= a
  {
    hide IsUuid;
    var t := f.Text();
    if |t| > |a| {
      assert t[|a|] == (a + [c] + b)[|a|] == c;
      FooterMadeOf(f, |a|);
      assert false;
    }
    assert forall k :: 0 <= k < |t| ==> t[k] == (a + [c] + b)[k] == a[k];
  }

  predicate InFooter(c: char) {
    IsSpace(c) || c == '<' || c == '>' || c == '/' || InMarker(LowerChar(c)) || LowerChar(c) in {'s', 'u'}
  }

  lemma MarkMadeOf(m: string, k: nat)
    requires IsLooseMarker(m) && k < |m|
    ensures InFooter(m[k])
  {
    var u := m[3..39];
    assert 3 <= k < 39 ==> m[k] == u[k - 3];
  }

  lemma FooterMadeOf(f: Footer, k: nat)
    requires f.FooterOf? && f.Valid() && k < |f.Text()|
    ensures InFooter(f.Text()[k])
  {
    hide IsLooseMarker, IsSpace;
    var t := f.Text();
    var i, j := |f.open|, |f.open| + |f.before|;
    if k < i {
      assert t[k] == f.open[k] && Lower(f.open)[k] == LowerChar(f.open[k]);
    } else if k < j {
      assert t[k] == f.before[k - i];
    } else if k < j + |f.mark| {
      assert t[k] == f.mark[k - j];
      MarkMadeOf(f.mark, k - j);
    } else if k < j + |f.mark| + |f.after| {
      assert t[k] == f.after[k - j - |f.mark|];
    } else {
      var n := k - j - |f.mark| - |f.after|;
      assert t[k] == f.close[n] && Lower(f.close)[n] == LowerChar(f.close[n]);
    }
  }

  lemma SameFooter(a: string, c: char, b: string)
    requires !InFooter(c)
    ensures FooterAt(a + [c] + b) == FooterAt(a)
  {
    hide FooterAt, InFooter, IsLooseMarker, IsMarker;
    var s := a + [c] + b;
    if FooterAt(s).FooterOf? {
      FooterWithin(FooterAt(s), a, c, b);
      FooterPrefix(s, a);
    } else if FooterAt(a).FooterOf? {
      assert FooterAt(a).Text() <= s;
      FooterPrefix(a, s);
    }
  }

  /** The two sides of such a character collapse apart. */
  lemma {:induction false} CollapseApart(a: string, c: char, b: string)
    requires !InFooter(c)
    ensures Collapse(a + [c] + b) == Collapse(a) + [c] + Collapse(b)
  {
    hide FooterAt, InFooter, IsLooseMarker, IsMarker;
    var s := a + [c] + b;
    SameFooter(a, c, b);
    if a == "" {
      assert FooterAt(a).NoFooter?;
      assert s[1..] == b;
    } else {
      var n := if FooterAt(a).FooterOf? then |FooterAt(a).Text()| else 1;
      assert s[n..] == a[n..] + [c] + b;
      CollapseApart(a[n..], c, b);
    }
  }

  /** Collapsing never makes a marker out of the characters around a footer. */
  lemma CollapseMakesNone(s: string)
    requires StartsMarker(Collapse(s)) && FooterAt(s).NoFooter?
    ensures StartsMarker(s)
  {
    hide FooterAt;
    var t := Collapse(s);
    var w := t[..MARKER_LENGTH];
    MarkerCharacters(w);
    var v := w[1..];
    assert forall k :: 0 <= k < |v| ==> v[k] == w[k + 1];
    assert t == [s[0]] + Collapse(s[1..]);
    assert v <= Collapse(s[1..]);
    CollapseVerbatim(s[1..], v);
    assert w == [s[0]] + v;
    assert s == [s[0]] + s[1..];
    assert s[..MARKER_LENGTH] == w;
  }

  /** The markers of a footer and what follows it. */
  lemma MarkersOfFooter(f: Footer, rest: string)
    requires f.FooterOf? && f.Valid() && IsMarker(f.mark)
    ensures Markers(f.Text() + rest) == [MemoryId(f.mark)] + Markers(rest)
  {
    var s := f.Text() + rest;
    var z := f.after + f.close + rest;
    var head := f.open + f.before;
    assert s == head + (f.mark + z);
    TagCharacters(f.open);
    TagCharacters(f.close);
    forall k | 0 <= k < |head|
      ensures !StartsMarker(s[k..])
    {
      assert s[k] == head[k] == if k < 5 then f.open[k] else f.before[k - 5];
    }
    MarkersSkip(s, |head|);
    assert s[|head|..] == f.mark + z;
    assert (f.mark + z)[..MARKER_LENGTH] == f.mark && (f.mark + z)[MARKER_LENGTH..] == z;
    var tail := f.after + f.close;
    forall k | 0 <= k < |tail|
      ensures !StartsMarker(z[k..])
    {
      assert z[k] == tail[k] == if k < |f.after| then f.after[k] else f.close[k - |f.after|];
    }
    MarkersSkip(z, |tail|);
    assert z[|tail|..] == rest;
  }

  lemma CollapsedFooter(s: string)
    requires s != "" && FooterAt(s).FooterOf?
    ensures var f := FooterAt(s);
      && |f.Text()| <= |s|
      && Collapse(s) == Mark(f.mark[3..39]) + Collapse(s[|f.Text()|..])
  {
    hide FooterAt;
  }

  lemma KeepsFooter(s: string)
    requires s != "" && FooterAt(s).FooterOf? && IsMarker(FooterAt(s).mark)
    requires var n := |FooterAt(s).Text()|; n <= |s| && Markers(Collapse(s[n..])) == Markers(s[n..])
    ensures Markers(Collapse(s)) == Markers(s)
  {
    hide FooterAt, Markers, Collapse;
    var f := FooterAt(s);
    var rest := s[|f.Text()|..];
    CollapsedFooter(s);
    var mark := Mark(f.mark[3..39]);
    MarkIsMarker(f.mark[3..39]);
    MarkersAfterMark(mark, Collapse(rest));
    assert s == f.Text() + rest;
    MarkersOfFooter(f, rest);
  }

  lemma MarkersAfterMark(mark: string, rest: string)
    requires IsMarker(mark)
    ensures Markers(mark + rest) == [MemoryId(mark)] + Markers(rest)
  {
    hide IsLooseMarker;
    MarkLength(mark);
    assert (mark + rest)[..MARKER_LENGTH] == mark && (mark + rest)[MARKER_LENGTH..] == rest;
  }

  lemma MarkLength(mark: string)
    requires IsMarker(mark)
    ensures |mark| == MARKER_LENGTH
  {
    hide IsUuid;
  }

  lemma KeepsMarker(s: string)
    requires StartsMarker(s) && Markers(Collapse(s[MARKER_LENGTH..])) == Markers(s[MARKER_LENGTH..])
    ensures Markers(Collapse(s)) == Markers(s)
  {
    hide FooterAt, Markers, Collapse, IsLooseMarker;
    var mark, rest := s[..MARKER_LENGTH], s[MARKER_LENGTH..];
    MarkerCharacters(mark);
    CollapseCopies(s, MARKER_LENGTH);
    MarkersAfterMark(mark, Collapse(rest));
    MarkersAfterMark(mark, rest);
    assert s == mark + rest;
  }

  lemma KeepsOther(s: string)
    requires s != "" && FooterAt(s).NoFooter? && !StartsMarker(s)
    requires Markers(Collapse(s[1..])) == Markers(s[1..])
    ensures Markers(Collapse(s)) == Markers(s)
  {
    hide FooterAt, StartsMarker;
    if StartsMarker(Collapse(s)) {
      CollapseMakesNone(s);
      assert false;
    }
    assert Collapse(s)[1..] == Collapse(s[1..]);
  }

  lemma HeadSettled(s: string)
    requires s != "" && Settled(s) && FooterAt(s).FooterOf?
    ensures IsMarker(FooterAt(s).mark)
  {
    hide FooterAt, IsMarker;
    assert s[0..] == s;
  }

  /** How much of a text collapsing treats as one piece: a footer, a marker or one character. */
  function Stride(s: string): (n: nat)
    requires s != ""
    ensures 0 < n <= |s|
  {
    hide FooterAt;
    if FooterAt(s).FooterOf? then |FooterAt(s).Text()| else if StartsMarker(s) then MARKER_LENGTH else 1
  }

  /** Collapsing the footers of a settled text keeps its markers. */
  lemma {:induction false} CollapseKeepsMarkers(s: string)
    requires Settled(s)
    ensures Markers(Collapse(s)) == Markers(s)
  {
    hide FooterAt, Markers, Collapse, StartsMarker, Settled, IsMarker, Footer.Text;
    if s != "" {
      var n := Stride(s);
      assert s[n..] == s[n..|s|];
      SettledPart(s, n, |s|);
      CollapseKeepsMarkers(s[n..]);
      if FooterAt(s).FooterOf? {
        HeadSettled(s);
        KeepsFooter(s);
      } else if StartsMarker(s) {
        KeepsMarker(s);
      } else {
        KeepsOther(s);
      }
    } else {
      CollapseNothing();
    }
  }

  lemma CollapseNothing()
    ensures Collapse("") == ""
  {
  }
}
