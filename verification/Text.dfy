/**
 The string operations of JavaScript that the console code leans on: white space,
 trimming, searching, splitting and joining.  Strings are sequences of Unicode
 scalar values.
 */
module Text {

  /** What `\s` and `trim` call white space: WhiteSpace and LineTerminator of ECMA-262, section 12. */
  predicate IsSpace(c: char) {
    || '\t' <= c <= '\r' || c == ' ' || c == '\U{00A0}' || c == '\U{1680}'
    || '\U{2000}' <= c <= '\U{200A}' || c == '\U{2028}' || c == '\U{2029}'
    || c == '\U{202F}' || c == '\U{205F}' || c == '\U{3000}' || c == '\U{FEFF}'
  }

  /** The characters that `.` in a regular expression does not match. */
  predicate IsLineEnd(c: char) {
    c == '\n' || c == '\r' || c == '\U{2028}' || c == '\U{2029}'
  }

  predicate IsDigit(c: char) {
    '0' <= c <= '9'
  }

  predicate IsHex(c: char) {
    '0' <= c <= '9' || 'a' <= c <= 'f' || 'A' <= c <= 'F'
  }

  function HexValue(c: char): (d: nat)
    requires IsHex(c)
    ensures d < 16
  {
    if c <= '9' then c as int - '0' as int
    else if c <= 'F' then c as int - 'A' as int + 10
    else c as int - 'a' as int + 10
  }

  function LowerChar(c: char): char {
    if 'A' <= c <= 'Z' then (c as int + 32) as char else c
  }

  /** ASCII lower-casing. */
  function Lower(s: string): (r: string)
    ensures |r| == |s|
  {
    seq(|s|, i requires 0 <= i < |s| => LowerChar(s[i]))
  }

  /** The number of leading characters of `s` that are white space. */
  function Spaces(s: string): (n: nat)
    ensures n <= |s|
    ensures forall k :: 0 <= k < n ==> IsSpace(s[k])
    ensures n < |s| ==> !IsSpace(s[n])
  {
    if s != "" && IsSpace(s[0]) then 1 + Spaces(s[1..]) else 0
  }

  function TrimStart(s: string): (r: string)
    ensures r == "" || !IsSpace(r[0])
  {
    s[Spaces(s)..]
  }

  function TrimEnd(s: string): (r: string)
    ensures r <= s
    ensures r == "" || !IsSpace(r[|r| - 1])
    ensures forall k :: |r| <= k < |s| ==> IsSpace(s[k])
  {
    if s != "" && IsSpace(s[|s| - 1]) then TrimEnd(s[..|s| - 1]) else s
  }

  function Trim(s: string): (r: string)
    ensures r == "" || (!IsSpace(r[0]) && !IsSpace(r[|r| - 1]))
  {
    TrimEnd(TrimStart(s))
  }

  /** `Trim` leaves alone exactly the strings with no white space at either end. */
  lemma TrimmedAlready(s: string)
    requires s == "" || (!IsSpace(s[0]) && !IsSpace(s[|s| - 1]))
    ensures Trim(s) == s
  {
  }

  lemma TrimEnds(s: string)
    ensures Trim(s) == "" || (!IsSpace(Trim(s)[0]) && !IsSpace(Trim(s)[|Trim(s)| - 1]))
  {
  }

  lemma TrimTwice(s: string)
    ensures Trim(Trim(s)) == Trim(s)
  {
    hide Trim;
    TrimEnds(s);
    TrimmedAlready(Trim(s));
  }

  lemma TrimStartPadded(a: string, s: string)
    requires forall k :: 0 <= k < |a| ==> IsSpace(a[k])
    requires s == "" || !IsSpace(s[0])
    ensures TrimStart(a + s) == s
  {
    hide IsSpace;
    var t := a + s;
    assert forall k :: 0 <= k < |a| ==> t[k] == a[k];
    assert s != "" ==> t[|a|] == s[0];
    assert Spaces(t) == |a|;
  }

  lemma {:induction false} TrimEndPadded(s: string, b: string)
    requires forall k :: 0 <= k < |b| ==> IsSpace(b[k])
    requires s == "" || !IsSpace(s[|s| - 1])
    ensures TrimEnd(s + b) == s
  {
    hide IsSpace;
    if b == "" {
      assert s + b == s;
    } else {
      var c := b[..|b| - 1];
      assert (s + b)[..|s + b| - 1] == s + c;
      assert (s + b)[|s + b| - 1] == b[|b| - 1];
      TrimEndPadded(s, c);
    }
  }

  /** Trimming `s` between runs of white space gives `s` back. */
  lemma TrimPadded(a: string, s: string, b: string)
    requires forall k :: 0 <= k < |a| ==> IsSpace(a[k])
    requires forall k :: 0 <= k < |b| ==> IsSpace(b[k])
    requires s == "" || (!IsSpace(s[0]) && !IsSpace(s[|s| - 1]))
    ensures Trim(a + s + b) == s
  {
    hide IsSpace, TrimStart, TrimEnd;
    if s == "" {
      TrimStartPadded(a + b, "");
      assert a + s + b == (a + b) + "";
      TrimEndPadded("", "");
      assert "" + "" == "";
    } else {
      assert a + s + b == a + (s + b) && (s + b)[0] == s[0];
      TrimStartPadded(a, s + b);
      TrimEndPadded(s, b);
    }
  }

  predicate OccursAt(s: string, pat: string, k: nat) {
    k + |pat| <= |s| && s[k..k + |pat|] == pat
  }

  /** `s.indexOf(pat, from)`. */
  function IndexOf(s: string, pat: string, from: nat): (r: int)
    ensures r == -1 || (from <= r && OccursAt(s, pat, r))
    ensures forall k: nat :: from <= k && (r == -1 || k < r) ==> !OccursAt(s, pat, k)
    decreases |s| - from
  {
    if |s| < from then -1
    else if OccursAt(s, pat, from) then from
    else IndexOf(s, pat, from + 1)
  }

  ghost predicate Contains(s: string, pat: string) {
    exists k: nat :: OccursAt(s, pat, k)
  }

  /** `s.split(sep)` for a one-character separator. */
  function Split(s: string, sep: char): (r: seq<string>)
    ensures r != []
    ensures forall k :: 0 <= k < |r| ==> sep !in r[k]
  {
    if s == "" then [""]
    else if s[0] == sep then [""] + Split(s[1..], sep)
    else
      var r := Split(s[1..], sep);
      [[s[0]] + r[0]] + r[1..]
  }

  /** `parts.join(sep)`. */
  function Join(parts: seq<string>, sep: string): string {
    if parts == [] then "" else if |parts| == 1 then parts[0]
    else parts[0] + sep + Join(parts[1..], sep)
  }

  /** Joining undoes splitting. */
  lemma {:induction false} JoinSplit(s: string, sep: char)
    ensures Join(Split(s, sep), [sep]) == s
  {
    if s == "" {
    } else {
      JoinSplit(s[1..], sep);
      var r := Split(s[1..], sep);
      if s[0] == sep {
        assert Split(s, sep)[1..] == r;
      } else {
        assert Split(s, sep)[1..] == r[1..];
      }
    }
  }

  /** A part without the separator, then the separator, then the rest. */
  lemma {:induction false} SplitPart(part: string, sep: char, rest: string)
    requires sep !in part
    ensures Split(part + [sep] + rest, sep) == [part] + Split(rest, sep)
    ensures Split(part, sep) == [part]
  {
    var s := part + [sep] + rest;
    if part == "" {
      assert s[1..] == rest;
    } else {
      SplitPart(part[1..], sep, rest);
      assert s[1..] == part[1..] + [sep] + rest;
      assert s[0] == part[0];
      assert [part[0]] + part[1..] == part;
      var r := Split(s[1..], sep);
      assert Split(s, sep) == [[s[0]] + r[0]] + r[1..];
      assert r == [part[1..]] + Split(rest, sep);
      var q := Split(part[1..], sep);
      assert Split(part, sep) == [[part[0]] + q[0]] + q[1..];
    }
  }

  /** Splitting undoes joining, for at least one part and none with the separator in it. */
  lemma {:induction false} SplitJoin(parts: seq<string>, sep: char)
    requires parts != []
    requires forall k :: 0 <= k < |parts| ==> sep !in parts[k]
    ensures Split(Join(parts, [sep]), sep) == parts
  {
    if |parts| == 1 {
      SplitPart(parts[0], sep, "");
    } else {
      var rest := Join(parts[1..], [sep]);
      SplitJoin(parts[1..], sep);
      SplitPart(parts[0], sep, rest);
      assert Join(parts, [sep]) == parts[0] + [sep] + rest;
      assert [parts[0]] + parts[1..] == parts;
    }
  }

  lemma TrimKeepsOut(s: string, c: char)
    requires c !in s
    ensures c !in Trim(s)
  {
    assert forall k :: 0 <= k < |Trim(s)| ==> Trim(s)[k] == TrimStart(s)[k];
  }

  lemma {:induction false} SplitKeepsOut(s: string, sep: char, c: char, k: nat)
    requires c !in s && k < |Split(s, sep)|
    ensures c !in Split(s, sep)[k]
  {
    if s == "" {
    } else {
      var r := Split(s[1..], sep);
      if s[0] == sep {
        if k > 0 {
          SplitKeepsOut(s[1..], sep, c, k - 1);
        }
      } else {
        SplitKeepsOut(s[1..], sep, c, k);
      }
    }
  }

  lemma AllSpace(s: string, w: string)
    requires Spaces(s) == |s| && forall k :: 0 <= k < |w| ==> IsSpace(w[k])
    ensures TrimStart(s + w) == "" == TrimStart(s)
  {
    hide IsSpace, Spaces;
    var t := s + w;
    assert forall k :: 0 <= k < |s| ==> t[k] == s[k];
    assert forall k :: |s| <= k < |t| ==> t[k] == w[k - |s|];
  }

  lemma SpacesTail(s: string, w: string)
    requires Spaces(s) < |s|
    ensures Spaces(s + w) == Spaces(s)
  {
    hide IsSpace;
    var t, n := s + w, Spaces(s);
    assert t[n] == s[n];
    assert forall k :: 0 <= k < n ==> t[k] == s[k];
    hide Spaces;
  }

  lemma CutAround(s: string, n: nat)
    requires n < |s|
    ensures s == s[..n] + s[n..n + 1] + s[n + 1..]
  {
  }

  lemma CutTail(s: string, w: string, n: nat)
    requires n <= |s|
    ensures (s + w)[n..] == s[n..] + w
  {
  }

  lemma TrimStartTail(s: string, w: string)
    requires Spaces(s) < |s|
    ensures TrimStart(s + w) == TrimStart(s) + w
  {
    hide IsSpace, Spaces;
    SpacesTail(s, w);
    CutTail(s, w, Spaces(s));
  }

  /** Trimming does not see white space at the end. */
  lemma TrimTail(s: string, c: char)
    requires IsSpace(c)
    ensures Trim(s + [c]) == Trim(s)
  {
    hide IsSpace, Spaces;
    if Spaces(s) == |s| {
      AllSpace(s, [c]);
    } else {
      TrimStartTail(s, [c]);
      var t := TrimStart(s);
      assert (t + [c])[..|t|] == t;
    }
  }
}
