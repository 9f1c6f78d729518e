/**
 What a citation marker and an evidence footer look like, and what rewriting the footers of a
 text does, from its first footer on.
 */
module MarkerShapes {
  import opened Text
  import opened Marker
  import opened Characters
  import opened Citations

  ghost predicate HexRun(s: string, n: nat) {
    |s| == n && forall k :: 0 <= k < n ==> s[k] in LOWER_HEX || s[k] in UPPER_HEX
  }

  function Dashed(a: string, b: string, c: string, d: string, e: string): string {
    a + ("-" + (b + ("-" + (c + ("-" + (d + ("-" + e)))))))
  }

  /** Hex digits in groups of 8, 4, 4, 4 and 12. */
  ghost predicate UuidShape(u: string) {
    exists a: string, b: string, c: string, d: string, e: string ::
      && u == Dashed(a, b, c, d, e)
      && HexRun(a, 8) && HexRun(b, 4) && HexRun(c, 4) && HexRun(d, 4) && HexRun(e, 12)
  }

  lemma HexRunOf(s: string)
    ensures HexRun(s, |s|) <==> forall k :: 0 <= k < |s| ==> IsHex(s[k])
  {
    hide IsHex;
    forall k | 0 <= k < |s|
      ensures IsHex(s[k]) <==> s[k] in LOWER_HEX || s[k] in UPPER_HEX
    {
      HexExactly(s[k]);
    }
  }

  lemma UuidCut(u: string)
    requires IsUuid(u)
    ensures UuidShape(u)
  {
    hide IsHex, HexRun, UuidShape;
    var a, b, c, d, e := u[..8], u[9..13], u[14..18], u[19..23], u[24..];
    assert u[8] == '-' && u[13] == '-' && u[18] == '-' && u[23] == '-';
    HexRunOf(a);
    HexRunOf(b);
    HexRunOf(c);
    HexRunOf(d);
    HexRunOf(e);
    assert u == Dashed(a, b, c, d, e);
    hide Dashed, IsUuid;
    ShapeOf(a, b, c, d, e);
  }

  lemma ShapeOf(a: string, b: string, c: string, d: string, e: string)
    requires HexRun(a, 8) && HexRun(b, 4) && HexRun(c, 4) && HexRun(d, 4) && HexRun(e, 12)
    ensures UuidShape(Dashed(a, b, c, d, e))
  {
    hide HexRun, Dashed;
  }

  lemma UuidFits(a: string, b: string, c: string, d: string, e: string)
    requires HexRun(a, 8) && HexRun(b, 4) && HexRun(c, 4) && HexRun(d, 4) && HexRun(e, 12)
    ensures IsUuid(Dashed(a, b, c, d, e))
  {
    HexRunOf(a);
    HexRunOf(b);
    HexRunOf(c);
    HexRunOf(d);
    HexRunOf(e);
    hide IsHex, HexRun;
    assert |a| == 8 && |b| == 4 && |c| == 4 && |d| == 4 && |e| == 12 by { Lengths(a, b, c, d, e); }
    var u := Dashed(a, b, c, d, e);
    forall k | 0 <= k < 36
      ensures if k in {8, 13, 18, 23} then u[k] == '-' else IsHex(u[k])
    {
      assert u[k] ==
        if k < 8 then a[k] else if k == 8 then '-' else if k < 13 then b[k - 9] else if k == 13 then '-'
        else if k < 18 then c[k - 14] else if k == 18 then '-' else if k < 23 then d[k - 19] else if k == 23 then '-'
        else e[k - 24];
    }
  }

  lemma Lengths(a: string, b: string, c: string, d: string, e: string)
    requires HexRun(a, 8) && HexRun(b, 4) && HexRun(c, 4) && HexRun(d, 4) && HexRun(e, 12)
    ensures |a| == 8 && |b| == 4 && |c| == 4 && |d| == 4 && |e| == 12
  {
  }

  lemma UuidExactly(u: string)
    ensures IsUuid(u) <==> UuidShape(u)
  {
    hide IsUuid, HexRun;
    if IsUuid(u) {
      UuidCut(u);
    }
    if UuidShape(u) {
      var a, b, c, d, e: string :|
        && u == Dashed(a, b, c, d, e)
        && HexRun(a, 8) && HexRun(b, 4) && HexRun(c, 4) && HexRun(d, 4) && HexRun(e, 12);
      UuidFits(a, b, c, d, e);
    }
  }

  /** What is a marker, and the memory it names. */
  lemma MarkerExactly(m: string)
    ensures IsMarker(m) <==> exists u: string :: UuidShape(u) && m == "[m:" + u + "]"
    ensures forall u: string :: UuidShape(u) && m == "[m:" + u + "]" ==> |m| == 40 && MemoryId(m) == Lower(u)
  {
    hide UuidShape, Lower;
    if IsMarker(m) {
      var u := m[3..39];
      UuidExactly(u);
      assert m == "[m:" + u + "]";
    }
    forall u: string | UuidShape(u) && m == "[m:" + u + "]"
      ensures IsMarker(m) && |m| == 40 && MemoryId(m) == Lower(u)
    {
      UuidExactly(u);
      assert m == Mark(u);
      MarkIsMarker(u);
      UuidLength(u);
    }
  }

  lemma UuidLength(u: string)
    requires IsUuid(u)
    ensures |u| == 36
  {
  }

  /** A marker, or one with a capital `M`. */
  ghost predicate LooseShape(m: string) {
    exists u: string :: UuidShape(u) && (m == "[m:" + u + "]" || m == "[M:" + u + "]")
  }

  lemma LooseExactly(m: string)
    ensures IsLooseMarker(m) <==> LooseShape(m)
  {
    hide UuidShape;
    if IsLooseMarker(m) {
      var u := m[3..39];
      UuidExactly(u);
      CaseOfM(m[1]);
      assert m == "[m:" + u + "]" || m == "[M:" + u + "]";
    }
    if LooseShape(m) {
      var u: string :| UuidShape(u) && (m == "[m:" + u + "]" || m == "[M:" + u + "]");
      UuidExactly(u);
      UuidLength(u);
      CaseOfM(m[1]);
      assert m[3..39] == u;
    }
  }

  lemma CaseOfM(c: char)
    ensures LowerChar(c) == 'm' <==> c == 'm' || c == 'M'
  {
  }

  /** An opening tag, white space, a marker, white space and a closing tag, in any letter case. */
  ghost predicate FooterShape(f: Footer) {
    && f.FooterOf?
    && Lower(f.open) == "<sub>" && Lower(f.close) == "</sub>"
    && (forall k :: 0 <= k < |f.before| ==> IsSpace(f.before[k]))
    && (forall k :: 0 <= k < |f.after| ==> IsSpace(f.after[k]))
    && LooseShape(f.mark)
  }

  /** A text starts with a footer exactly when the footer's characters are its first ones. */
  lemma FooterExactly(s: string, f: Footer)
    requires f.FooterOf?
    ensures FooterAt(s) == f <==> FooterShape(f) && f.open + (f.before + (f.mark + (f.after + f.close))) <= s
  {
    hide FooterAt, LooseShape, IsLooseMarker;
    LooseExactly(f.mark);
    if FooterShape(f) && f.Text() <= s {
      assert s == f.Text() + s[|f.Text()|..];
      FooterThen(f, s[|f.Text()|..]);
    }
  }

  /** Rewriting leaves everything before the first footer alone, puts the bare marker in its place,
      and goes on behind it. */
  lemma {:induction false} CollapseFirst(s: string, k: nat)
    requires k < |s| && FooterAt(s[k..]).FooterOf?
    requires forall j :: 0 <= j < k ==> FooterAt(s[j..]).NoFooter?
    ensures var f := FooterAt(s[k..]);
      && 40 <= |f.mark| && k + |f.Text()| <= |s|
      && Collapse(s) == s[..k] + ("[m:" + f.mark[3..39] + "]" + Collapse(s[k + |f.Text()|..]))
  {
    hide FooterAt, Collapse, IsLooseMarker, Footer.Text;
    assert s[0..] == s;
    if k == 0 {
      var f := FooterAt(s);
      CollapsedFooter(s);
      MarkLong(f.mark);
      MarkReads(f.mark[3..39]);
    } else {
      StepOver(s);
      var t := s[1..];
      assert forall j :: 0 <= j < k - 1 ==> t[j..] == s[j + 1..];
      assert t[k - 1..] == s[k..];
      CollapseFirst(t, k - 1);
      var f := FooterAt(s[k..]);
      assert t[k - 1 + |f.Text()|..] == s[k + |f.Text()|..];
      assert s[..k] == [s[0]] + t[..k - 1];
    }
  }

  lemma StepOver(s: string)
    requires s != "" && FooterAt(s).NoFooter?
    ensures Collapse(s) == [s[0]] + Collapse(s[1..])
  {
    hide FooterAt;
  }

  lemma MarkReads(uuid: string)
    ensures Mark(uuid) == "[m:" + uuid + "]"
  {
  }

  lemma MarkLong(m: string)
    requires IsLooseMarker(m)
    ensures |m| == 40
  {
  }

  /** Without a footer nothing is rewritten. */
  lemma CollapseNone(s: string)
    requires forall k :: 0 <= k < |s| ==> FooterAt(s[k..]).NoFooter?
    ensures Collapse(s) == s
  {
    hide FooterAt;
    NothingToCollapse(s);
  }
}
