/**
 A page on which a citation marker is lost: a footer inside a footer, between a `[` and a
 `(`, under strong.  One pass over the line leaves a text with no backtick and no `](`; the
 second pass, inside the strong node, makes a link of it and the marker its caption.
 */
module NestedFooter {
  import opened Text
  import opened Marker
  import opened Inline
  import opened InlineParser
  import opened Citations

  function Page(uuid: string): string {
    "**[a <sub><sub>" + Mark(uuid) + "</sub></sub>(/a)**"
  }

  function Pass1(uuid: string): string {
    "**[a <sub>" + Mark(uuid) + "</sub>(/a)**"
  }

  function Within(uuid: string): string {
    "[a <sub>" + Mark(uuid) + "</sub>(/a)"
  }

  function Pass2(uuid: string): string {
    "[a " + Mark(uuid) + "(/a)"
  }

  function TheFooter(uuid: string): Footer {
    FooterOf("<sub>", "", Mark(uuid), "", "</sub>")
  }

  lemma TheFooterValid(uuid: string)
    requires IsUuid(uuid)
    ensures TheFooter(uuid).Valid() && TheFooter(uuid).Text() == "<sub>" + Mark(uuid) + "</sub>"
    ensures TheFooter(uuid).mark[3..39] == uuid
  {
    MarkIsMarker(uuid);
    assert Mark(uuid)[3..39] == uuid;
  }

  /** A footer in front of a text without `<`. */
  lemma CollapseFooter(uuid: string, rest: string)
    requires IsUuid(uuid)
    ensures Collapse("<sub>" + Mark(uuid) + "</sub>" + rest) == Mark(uuid) + Collapse(rest)
  {
    hide FooterAt, IsUuid;
    var f := TheFooter(uuid);
    TheFooterValid(uuid);
    FooterThen(f, rest);
    var s := f.Text() + rest;
    assert s == "<sub>" + Mark(uuid) + "</sub>" + rest;
    assert s[|f.Text()|..] == rest;
  }

  lemma CollapseNone(s: string)
    requires '<' !in s
    ensures Collapse(s) == s
  {
    hide FooterAt;
    CollapseCopies(s, |s|);
    assert s[|s|..] == "" && s[..|s|] == s;
  }

  lemma CollapseClosing(s: string)
    requires '<' !in s
    ensures Collapse("</sub>" + s) == "</sub>" + s
  {
    var t := "</sub>" + s;
    assert Lower(t[..5])[1] == '/';
    assert t[1..] == "/sub>" + s;
    CollapseNone(t[1..]);
  }

  lemma CollapseStep(s: string)
    requires s != "" && FooterAt(s).NoFooter?
    ensures Collapse(s) == [s[0]] + Collapse(s[1..])
  {
    hide FooterAt;
  }

  lemma CollapseOpening(s: string)
    requires s != "" && s[0] == '<'
    ensures Collapse("<sub>" + s) == "<sub>" + Collapse(s)
  {
    hide FooterAt, Collapse;
    var t := "<sub>" + s;
    OpeningAlone(s);
    CollapseStep(t);
    assert t[1..] == "sub>" + s;
    CollapseCopies(t[1..], 4);
    assert t[1..][4..] == s && t[1..][..4] == "sub>";
    assert [t[0]] + ("sub>" + Collapse(s)) == "<sub>" + Collapse(s);
  }

  lemma OpeningAlone(s: string)
    requires s != "" && s[0] == '<'
    ensures FooterAt("<sub>" + s).NoFooter?
  {
    hide IsUuid;
    var t := "<sub>" + s;
    assert t[5..] == s && Spaces(s) == 0;
    assert s[0..] == s;
    assert |s| >= MARKER_LENGTH ==> s[..MARKER_LENGTH][0] == '<';
  }

  lemma Opened(uuid: string, s: string)
    requires s == "<sub>" + Mark(uuid) + "</sub>" + "</sub>(/a)**"
    ensures |Page(uuid)| > 5 && Page(uuid)[..5] == "**[a " && Page(uuid)[5..] == "<sub>" + s
    ensures s[0] == '<' && forall k :: 0 <= k < 5 ==> Page(uuid)[k] != '<'
  {
    assert Page(uuid) == "**[a " + ("<sub>" + s);
    assert Page(uuid)[..5] == "**[a ";
    assert forall k :: 0 <= k < 5 ==> Page(uuid)[k] == "**[a "[k];
  }

  lemma FirstPass(uuid: string)
    requires IsUuid(uuid)
    ensures Collapse(Page(uuid)) == Pass1(uuid)
  {
    hide FooterAt, Collapse, IsUuid, Page;
    var s := "<sub>" + Mark(uuid) + "</sub>" + "</sub>(/a)**";
    Opened(uuid, s);
    CollapseCopies(Page(uuid), 5);
    CollapseOpening(s);
    CollapseFooter(uuid, "</sub>(/a)**");
    assert "</sub>(/a)**" == "</sub>" + "(/a)**";
    CollapseClosing("(/a)**");
    assert Collapse(Page(uuid)) == "**[a " + ("<sub>" + (Mark(uuid) + "</sub>(/a)**"));
  }

  lemma SecondPass(uuid: string)
    requires IsUuid(uuid)
    ensures Collapse(Within(uuid)) == Pass2(uuid)
  {
    hide FooterAt, Collapse, IsUuid;
    var s := "<sub>" + Mark(uuid) + "</sub>" + "(/a)";
    assert Within(uuid) == "[a " + s;
    CollapseCopies(Within(uuid), 3);
    CollapseFooter(uuid, "(/a)");
    CollapseNone("(/a)");
  }

  lemma UuidCharacters(uuid: string)
    requires IsUuid(uuid)
    ensures |uuid| == 36 && forall k :: 0 <= k < |uuid| ==> uuid[k] == '-' || IsHex(uuid[k])
  {
  }

  lemma NoStars(uuid: string)
    requires IsUuid(uuid)
    ensures '*' !in Within(uuid)
  {
    hide IsUuid;
    UuidCharacters(uuid);
    var w := Within(uuid);
    var open, close := "[a <sub>[m:", "]</sub>(/a)";
    assert w == open + uuid + close;
    forall k | 0 <= k < |w|
      ensures w[k] != '*'
    {
      assert w[k] == if k < 11 then open[k] else if k < 47 then uuid[k - 11] else close[k - 47];
    }
  }

  lemma StrongAround(w: string)
    requires '*' !in w
    ensures Lex("**" + w + "**") == StrongToken(w)
  {
    hide LinkAt, PlainRun, IsUuid;
    var s := "**" + w + "**";
    var end := |w| + 2;
    assert s[end..end + 2] == "**";
    forall k: nat | 2 <= k < end
      ensures !OccursAt(s, "**", k)
    {
      assert s[k] == w[k - 2];
      assert s[k..k + 2][0] == s[k];
    }
    assert OccursAt(s, "**", end);
    assert IndexOf(s, "**", 2) == end;
    hide IndexOf;
    assert s[2..end] == w;
    assert s[..2] == "**" && s[0] == '*';
  }

  lemma UnderStrong(uuid: string)
    requires IsUuid(uuid)
    ensures Lex(Pass1(uuid)) == StrongToken(Within(uuid))
  {
    hide Lex, IsUuid;
    NoStars(uuid);
    StrongAround(Within(uuid));
    assert Pass1(uuid) == "**" + Within(uuid) + "**";
  }

  lemma TargetOf()
    ensures TargetPrefix("/a)") == 2 && SafeTarget("/a")
  {
    assert "/a)"[1..] == "a)" && "a)"[1..] == ")";
    assert TargetPrefix(")") == 0 && TargetPrefix("a)") == 1;
  }

  lemma CaptionEnd(uuid: string)
    requires IsUuid(uuid)
    ensures IndexOf(Pass2(uuid), "]", 1) == 42 && |Pass2(uuid)| == 47
  {
    hide IsUuid;
    var s := Pass2(uuid);
    UuidCharacters(uuid);
    var open := "[a [m:";
    assert s == open + uuid + "](/a)";
    forall k: nat | 1 <= k < 42
      ensures !OccursAt(s, "]", k)
    {
      assert s[k] == if k < 6 then open[k] else uuid[k - 6];
      assert s[k..k + 1][0] == s[k];
    }
    assert s[42..43] == "]";
    assert OccursAt(s, "]", 42);
  }

  lemma LinkParts(uuid: string)
    requires IsUuid(uuid)
    ensures LinkAt(Pass2(uuid)) == LinkToken("a [m:" + uuid, "/a")
  {
    hide IsUuid, IndexOf, SafeTarget, TargetPrefix;
    var s := Pass2(uuid);
    UuidCharacters(uuid);
    CaptionEnd(uuid);
    assert s == "[" + ("a [m:" + uuid) + "](/a)";
    assert s[43..44] == "(";
    assert s[1..42] == "a [m:" + uuid;
    assert s[44..] == "/a)" && "/a)"[..2] == "/a";
    TargetOf();
    assert OccursAt(s, "(", 43);
  }

  lemma AsLink(uuid: string)
    requires IsUuid(uuid)
    ensures Lex(Pass2(uuid)) == LinkToken("a [m:" + uuid, "/a")
  {
    hide IsUuid, PlainRun, LinkAt, IndexOf;
    LinkParts(uuid);
    var s := Pass2(uuid);
    assert s[0] == '[' && s[1] == 'a';
    assert |s| >= MARKER_LENGTH ==> s[..MARKER_LENGTH][1] == 'a';
    assert s[..2][1] == 'a';
  }

  /** The marker shows in the once-collapsed line, which has no backtick and no `](`, and yet no
      citation comes out. */
  lemma NestedFooterLosesMarker(uuid: string)
    requires IsUuid(uuid)
    ensures '`' !in Collapse(Page(uuid)) && !Contains(Collapse(Page(uuid)), "](")
    ensures Lower(uuid) in Markers(Collapse(Page(uuid)))
    ensures Ids(Tree(Page(uuid))) != Markers(Collapse(Page(uuid)))
  {
    hide Lex, IsUuid, Markers, Collapse, IsMarker;
    FirstPass(uuid);
    UnderStrong(uuid);
    SecondPass(uuid);
    AsLink(uuid);
    OnlyMarker("[a ", uuid, "(/a)");
    assert LinkToken("a [m:" + uuid, "/a").Source() == Pass2(uuid);
    assert !ExposedText(Pass2(uuid));
    assert !Exposed(Within(uuid));
    assert !Exposed(Page(uuid));
    TreeCites(Page(uuid));
    OnlyMarker("**[a <sub>", uuid, "</sub>(/a)**");
    NothingToHide(uuid);
  }

  lemma OnlyMarker(before: string, uuid: string, after: string)
    requires IsUuid(uuid)
    requires |before| >= 3 && |before| <= 10 && before[|before| - 1] != '['
    requires forall k :: 0 <= k < |before| - 1 ==> before[k] == '[' ==> before[k + 1] != 'm'
    ensures Lower(uuid) in Markers(before + Mark(uuid) + after)
  {
    hide Markers, IsUuid;
    var s := before + Mark(uuid) + after;
    MarkIsMarker(uuid);
    forall k | 0 <= k < |before|
      ensures !StartsMarker(s[k..])
    {
      assert s[k] == before[k];
      assert |s[k..]| >= MARKER_LENGTH ==> s[k..][..MARKER_LENGTH][0] == s[k] && s[k..][..MARKER_LENGTH][1] == s[k + 1];
      assert k + 1 < |before| ==> s[k + 1] == before[k + 1];
    }
    MarkersSkip(s, |before|);
    var t := s[|before|..];
    assert t == Mark(uuid) + after;
    assert t[..MARKER_LENGTH] == Mark(uuid);
    MarkThen(t);
  }

  lemma NothingToHide(uuid: string)
    requires IsUuid(uuid)
    ensures '`' !in Pass1(uuid) && !Contains(Pass1(uuid), "](")
  {
    hide IsUuid;
    UuidCharacters(uuid);
    var s := Pass1(uuid);
    var open, close := "**[a <sub>[m:", "]</sub>(/a)**";
    assert s == open + uuid + close;
    forall k: nat
      ensures k < |s| ==> s[k] != '`'
      ensures !OccursAt(s, "](", k)
    {
      if k + 2 <= |s| {
        assert s[k..k + 2][0] == s[k] && s[k..k + 2][1] == s[k + 1];
        assert s[k] == if k < 13 then open[k] else if k < 49 then uuid[k - 13] else close[k - 49];
        assert k == 49 ==> s[k + 1] == close[1];
      } else if k < |s| {
        assert s[k] == close[k - 49];
      }
    }
  }
}
