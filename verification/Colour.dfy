/**
 Fading a theme colour: `withAlpha`, and the second implementation of it, `soft`.
 */
module Colour {
  import opened Text
  import opened Options
  import opened Numbers

  // ---- reading ------------------------------------------------------------------------

  /** The value of the hex digits that `s` starts with. */
  function HexDigits(s: string, so: nat): nat {
    if s == "" || !IsHex(s[0]) then so else HexDigits(s[1..], 16 * so + HexValue(s[0]))
  }

  function Unprefixed(u: string): string {
    if |u| >= 2 && u[0] == '0' && LowerChar(u[1]) == 'x' then u[2..] else u
  }

  /** What is read of a text that does not start with white space. */
  function ReadHex(t: string): Option<int> {
    var negative := t != "" && t[0] == '-';
    var u := if t != "" && (t[0] == '-' || t[0] == '+') then t[1..] else t;
    var v := Unprefixed(u);
    if v == "" || !IsHex(v[0]) then None
    else
      var n: int := HexDigits(v, 0);
      Some(if negative then -n else n)
  }

  /** `parseInt(s, 16)`: white space, a sign and `0x` may come before the digits; `None` is NaN. */
  function ParseHex(s: string): Option<int> {
    ReadHex(TrimStart(s))
  }

  /** Every character but a line terminator, twice. */
  function Doubled(s: string): string {
    if s == "" then "" else (if IsLineEnd(s[0]) then [s[0]] else [s[0], s[0]]) + Doubled(s[1..])
  }

  function SixDigits(raw: string): string {
    if |raw| == 3 then Doubled(raw) else if |raw| <= 6 then raw else raw[..6]
  }

  // ---- writing ------------------------------------------------------------------------

  function Call(fn: string, x: string, y: string, z: string, a: string): string {
    fn + "(" + (x + ", " + y + ", " + z + ", " + a) + ")"
  }

  /** The channels of a packed colour: `(n >> 16) & 255` and so on. */
  function FromPacked(n: int, a: string): string {
    Call("rgba", Decimal((n / 65536) % 256), Decimal((n / 256) % 256), Decimal(n % 256), a)
  }

  /** The text of the `k`th part, or that of `undefined`. */
  function Part(parts: seq<string>, k: nat): string {
    if k < |parts| then Trim(parts[k]) else "undefined"
  }

  function Functions(): seq<string> { ["hsla", "hsl", "rgba", "rgb"] }

  /** A colour function and the text between its parentheses. */
  function Matched(c: string): Option<(string, string)> {
    var at := IndexOf(c, "(", 0);
    if at < 0 || Lower(c[..at]) !in Functions() then None
    else
      var rest := c[at + 1..];
      if |rest| < 2 || rest[|rest| - 1] != ')' || ')' in rest[..|rest| - 1] then None
      else Some((Lower(c[..at]), rest[..|rest| - 1]))
  }

  function Family(fn: string): string {
    if "hsl" <= fn then "hsla" else "rgba"
  }

  /** `withAlpha`, with the alpha already printed. */
  function WithAlpha(color: string, a: string): string {
    var c := Trim(color);
    if "#" <= c then
      match ParseHex(SixDigits(c[1..]))
      case None => c
      case Some(n) => FromPacked(n, a)
    else
      match Matched(c)
      case None => c
      case Some((fn, inner)) =>
        var parts := Split(inner, ',');
        Call(Family(fn), Part(parts, 0), Part(parts, 1), Part(parts, 2), a)
  }

  function LastIndexOf(s: string, c: char): (r: int)
    ensures -1 <= r < |s|
    ensures r >= 0 ==> s[r] == c
    ensures forall k :: 0 <= k < |s| && k > r ==> s[k] != c
  {
    if s == "" then -1 else if s[|s| - 1] == c then |s| - 1 else LastIndexOf(s[..|s| - 1], c)
  }

  /** `s.slice(from, to)`; a negative end counts from the back. */
  function SliceText(s: string, from: nat, to: int): string {
    var end := if to >= 0 then to else if |s| + to >= 0 then |s| + to else 0;
    var e := if end > |s| then |s| else end;
    if from >= e then "" else s[from..e]
  }

  /** What `soft` reads a hex colour as: it knows no colour that is no number. */
  function SoftHex(raw: string): int {
    match ParseHex(SixDigits(raw)) case None => 0 case Some(n) => n
  }

  /** `soft`: no trimming, no NaN check, and every other colour read as hsl. */
  function Soft(tone: string, a: string): string {
    if "#" <= tone then
      FromPacked(SoftHex(tone[1..]), a)
    else
      var inner := SliceText(tone, (IndexOf(tone, "(", 0) + 1) as nat, LastIndexOf(tone, ')'));
      var parts := Split(inner, ',');
      Call("hsla", Part(parts, 0), Part(parts, 1), Part(parts, 2), a)
  }

  // ---- last alpha wins ----------------------------------------------------------------

  /** A printed number: nothing in it that the colour syntax uses, and no white space. */
  ghost predicate Plain(s: string) {
    s != "" && forall k :: 0 <= k < |s| ==> s[k] != ',' && s[k] != ')' && !IsSpace(s[k])
  }

  /** A channel: trimmed, without separators. */
  ghost predicate Channel(s: string) {
    (s == "" || (!IsSpace(s[0]) && !IsSpace(s[|s| - 1])))
    && forall k :: 0 <= k < |s| ==> s[k] != ',' && s[k] != ')'
  }

  lemma CallTrimmed(fn: string, inner: string)
    requires fn != "" && !IsSpace(fn[0])
    ensures Trim(fn + "(" + inner + ")") == fn + "(" + inner + ")"
  {
    TrimmedAlready(fn + "(" + inner + ")");
  }

  lemma CallMatched(fn: string, inner: string)
    requires fn == "hsla" || fn == "rgba"
    requires inner != "" && ')' !in inner
    ensures Matched(fn + "(" + inner + ")") == Some((fn, inner))
  {
    var c := fn + "(" + inner + ")";
    forall k: nat | k < 4
      ensures !OccursAt(c, "(", k)
    {
      assert c[k] == fn[k];
      assert c[k..k + 1][0] == c[k];
    }
    assert c[4..5] == "(";
    assert OccursAt(c, "(", 4);
    assert IndexOf(c, "(", 0) == 4;
    hide IndexOf;
    assert c[..4] == fn && Lower(fn) == fn;
    FourNames();
    assert c[5..] == inner + ")";
    assert (inner + ")")[..|inner|] == inner;
  }

  lemma FourNames()
    ensures "hsla" in Functions() && "rgba" in Functions()
  {
    assert Functions()[0] == "hsla" && Functions()[2] == "rgba";
  }

  lemma SplitFour(p: string, q: string, r: string, t: string)
    requires ',' !in p && ',' !in q && ',' !in r && ',' !in t
    ensures Split(p + [','] + (q + [','] + (r + [','] + t)), ',') == [p, q, r, t]
  {
    hide Split;
    SplitPart(p, ',', q + [','] + (r + [','] + t));
    SplitPart(q, ',', r + [','] + t);
    SplitPart(r, ',', t);
    SplitPart(t, ',', "");
  }

  lemma PartsJoined(x: string, y: string, z: string, a: string)
    ensures x + ", " + y + ", " + z + ", " + a == x + [','] + ((" " + y) + [','] + ((" " + z) + [','] + (" " + a)))
  {
  }

  lemma SpacedTrim(x: string)
    requires Channel(x)
    ensures Trim(x) == x && Trim(" " + x) == x && ',' !in " " + x
  {
    TrimmedAlready(x);
    TrimPadded(" ", x, "");
    assert " " + x + "" == " " + x;
  }

  lemma FourParts(x: string, y: string, z: string, a: string)
    requires Channel(x) && Channel(y) && Channel(z) && Channel(a)
    ensures var parts := Split(x + ", " + y + ", " + z + ", " + a, ',');
      |parts| == 4 && Part(parts, 0) == x && Part(parts, 1) == y && Part(parts, 2) == z
    ensures ')' !in x + ", " + y + ", " + z + ", " + a
  {
    hide Split, Trim;
    SpacedTrim(x);
    SpacedTrim(y);
    SpacedTrim(z);
    SpacedTrim(a);
    PartsJoined(x, y, z, a);
    SplitFour(x, " " + y, " " + z, " " + a);
  }

  /** Fading what was written by a fade replaces its alpha. */
  lemma CallFaded(fn: string, x: string, y: string, z: string, a: string, b: string)
    requires fn == "hsla" || fn == "rgba"
    requires Channel(x) && Channel(y) && Channel(z) && Channel(a)
    ensures WithAlpha(Call(fn, x, y, z, a), b) == Call(fn, x, y, z, b)
  {
    hide Split, Trim, Matched, IndexOf;
    var inner := x + ", " + y + ", " + z + ", " + a;
    var c := Call(fn, x, y, z, a);
    assert c == fn + "(" + inner + ")";
    FourParts(x, y, z, a);
    CallTrimmed(fn, inner);
    CallMatched(fn, inner);
    assert c[0] == fn[0];
  }

  lemma DecimalChannel(n: nat)
    ensures Channel(Decimal(n))
  {
    hide Decimal;
  }

  lemma PartChannel(inner: string, k: nat)
    requires ')' !in inner
    ensures Channel(Part(Split(inner, ','), k))
  {
    hide Trim, Split;
    var parts := Split(inner, ',');
    if k < |parts| {
      SplitKeepsOut(inner, ',', ')', k);
      TrimKeepsOut(parts[k], ',');
      TrimKeepsOut(parts[k], ')');
      TrimEnds(parts[k]);
    }
  }

  lemma PlainIsChannel(a: string)
    requires Plain(a)
    ensures Channel(a)
  {
  }

  lemma FamilyName(fn: string)
    ensures Family(fn) == "hsla" || Family(fn) == "rgba"
  {
  }

  lemma MatchedInner(c: string)
    requires Matched(c).Some?
    ensures ')' !in Matched(c).value.1
  {
  }

  /** Of two fades the last one counts, for every string whatsoever: a colour keeps its channels,
      and what is no colour is left alone both times. */
  lemma LastAlphaWins(color: string, a: string, b: string)
    requires Plain(a)
    ensures WithAlpha(WithAlpha(color, a), b) == WithAlpha(color, b)
  {
    hide Trim, Matched, ParseHex, SixDigits, Call, Split, Decimal, Part, Channel, Family;
    var c := Trim(color);
    TrimTwice(color);
    PlainIsChannel(a);
    if "#" <= c {
      var n := ParseHex(SixDigits(c[1..]));
      if n.Some? {
        var x, y, z := (n.value / 65536) % 256, (n.value / 256) % 256, n.value % 256;
        DecimalChannel(x);
        DecimalChannel(y);
        DecimalChannel(z);
        CallFaded("rgba", Decimal(x), Decimal(y), Decimal(z), a, b);
      }
    } else if Matched(c).Some? {
      var (fn, inner) := Matched(c).value;
      MatchedInner(c);
      FamilyName(fn);
      PartChannel(inner, 0);
      PartChannel(inner, 1);
      PartChannel(inner, 2);
      var parts := Split(inner, ',');
      CallFaded(Family(fn), Part(parts, 0), Part(parts, 1), Part(parts, 2), a, b);
    }
  }

  lemma HexReads(s: string)
    requires |s| >= 2 && IsHex(s[0]) && IsHex(s[1])
    ensures ParseHex(s).Some?
  {
    assert TrimStart(s) == s;
  }

  /** A three-digit colour is its six-digit expansion. */
  lemma ShortHex(x: char, y: char, z: char, a: string)
    requires IsHex(x) && IsHex(y) && IsHex(z)
    ensures WithAlpha(['#', x, y, z], a) == WithAlpha(['#', x, x, y, y, z, z], a)
  {
    hide ParseHex;
    var s, l := ['#', x, y, z], ['#', x, x, y, y, z, z];
    TrimmedAlready(s);
    TrimmedAlready(l);
    hide Trim;
    assert s[1..] == [x, y, z] && l[1..] == [x, x, y, y, z, z];
    assert [x, y, z][1..] == [y, z] && [y, z][1..] == [z] && [z][1..] == [];
    assert Doubled([z]) == [z, z] && Doubled([y, z]) == [y, y, z, z];
    assert Doubled([x, y, z]) == [x, x, y, y, z, z];
    hide Doubled;
    assert SixDigits(s[1..]) == SixDigits(l[1..]);
    HexReads(SixDigits(l[1..]));
    assert "#" <= s && "#" <= l;
  }

  lemma TwoDigits(x: char, y: char, rest: string, so: nat)
    requires IsHex(x) && IsHex(y)
    ensures HexDigits([x, y] + rest, so) == HexDigits(rest, 256 * so + (16 * HexValue(x) + HexValue(y)))
  {
    var s := [x, y] + rest;
    assert s[1..] == [y] + rest && s[1..][1..] == rest;
  }

  lemma SixDigitsRead(x1: char, x2: char, y1: char, y2: char, z1: char, z2: char)
    requires IsHex(x1) && IsHex(x2) && IsHex(y1) && IsHex(y2) && IsHex(z1) && IsHex(z2)
    ensures ParseHex([x1, x2, y1, y2, z1, z2]) == Some(
      65536 * (16 * HexValue(x1) + HexValue(x2)) + 256 * (16 * HexValue(y1) + HexValue(y2))
      + (16 * HexValue(z1) + HexValue(z2)))
  {
    hide HexDigits, HexValue;
    var s := [x1, x2, y1, y2, z1, z2];
    assert TrimStart(s) == s;
    hide TrimStart;
    var x, y := 16 * HexValue(x1) + HexValue(x2), 16 * HexValue(y1) + HexValue(y2);
    assert s == [x1, x2] + [y1, y2, z1, z2] && [y1, y2, z1, z2] == [y1, y2] + [z1, z2] && [z1, z2] == [z1, z2] + [];
    TwoDigits(x1, x2, [y1, y2, z1, z2], 0);
    TwoDigits(y1, y2, [z1, z2], x);
    TwoDigits(z1, z2, [], 256 * x + y);
    NoDigits(256 * (256 * x + y) + (16 * HexValue(z1) + HexValue(z2)));
  }

  lemma NoDigits(so: nat)
    ensures HexDigits([], so) == so
  {
  }

  lemma Unpacked(x: nat, y: nat, z: nat)
    requires x < 256 && y < 256 && z < 256
    ensures var n := 65536 * x + 256 * y + z; (n / 65536) % 256 == x && (n / 256) % 256 == y && n % 256 == z
  {
    assert (65536 * x + 256 * y + z) / 256 == 256 * x + y;
  }

  lemma CallReads(fn: string, x: string, y: string, z: string, a: string)
    ensures Call(fn, x, y, z, a) == fn + "(" + x + ", " + y + ", " + z + ", " + a + ")"
  {
  }

  /** Characters after the sixth are not read. */
  lemma LongHex(s: string, rest: string, a: string)
    requires |s| == 6 && s[0] != ' ' && !IsSpace(s[5]) && rest != "" && !IsSpace(rest[|rest| - 1])
    ensures var long, short := "#" + s + rest, "#" + s;
      WithAlpha(long, a) == if ParseHex(s).Some? then WithAlpha(short, a) else long
  {
    hide ParseHex, IsSpace;
    HashIsNoSpace();
    var long, short := "#" + s + rest, "#" + s;
    TrimmedAlready(long);
    TrimmedAlready(short);
    hide Trim;
    assert long[1..] == s + rest && (s + rest)[..6] == s && short[1..] == s;
  }

  lemma HashIsNoSpace()
    ensures !IsSpace('#')
  {
  }

  ghost predicate CallShape(c: string, fn: string, inner: string) {
    exists name: string :: '(' !in name && Lower(name) == fn && c == name + "(" + inner + ")"
  }

  lemma MatchedCut(c: string)
    requires Matched(c).Some?
    ensures var (fn, inner) := Matched(c).value;
      fn in Functions() && inner != "" && ')' !in inner && CallShape(c, fn, inner)
  {
    hide IndexOf, Lower, Functions;
    var at := MatchedAt(c);
    var name, inner := c[..at], Matched(c).value.1;
    CutAround(c, at);
    NoneBefore(c, at);
    assert name + "(" + (inner + ")") == name + "(" + inner + ")";
  }

  lemma MatchedFits(name: string, inner: string)
    requires '(' !in name && Lower(name) in Functions() && inner != "" && ')' !in inner
    ensures Matched(name + "(" + inner + ")") == Some((Lower(name), inner))
  {
    hide IndexOf, Lower, Functions;
    var rest := inner + ")";
    var c := name + "(" + rest;
    assert c == name + "(" + inner + ")";
    OpensAt(name, rest);
    assert c[..|name|] == name && c[|name| + 1..] == rest;
    assert rest[..|inner|] == inner;
  }

  /** The functions that name a colour, in any letter case, and what stands between their brackets. */
  lemma MatchedExactly(c: string, fn: string, inner: string)
    ensures Matched(c) == Some((fn, inner)) <==>
      fn in {"hsl", "hsla", "rgb", "rgba"} && inner != "" && ')' !in inner && CallShape(c, fn, inner)
  {
    hide IndexOf, Lower, Functions, Matched;
    FunctionsExactly(fn);
    if Matched(c) == Some((fn, inner)) {
      MatchedCut(c);
    }
    if fn in Functions() && inner != "" && ')' !in inner && CallShape(c, fn, inner) {
      var name: string :| '(' !in name && Lower(name) == fn && c == name + "(" + inner + ")";
      MatchedFits(name, inner);
    }
  }

  lemma FunctionsExactly(fn: string)
    ensures fn in Functions() <==> fn in {"hsl", "hsla", "rgb", "rgba"}
  {
    assert Functions() == ["hsla", "hsl", "rgba", "rgb"];
  }

  lemma OpensAt(name: string, rest: string)
    requires '(' !in name
    ensures IndexOf(name + "(" + rest, "(", 0) == |name|
  {
    hide IndexOf;
    var c := name + "(" + rest;
    forall k: nat | k < |name|
      ensures !OccursAt(c, "(", k)
    {
      assert c[k] == name[k];
      assert c[k..k + 1][0] == c[k];
    }
    assert c[|name|..|name| + 1] == "(";
    assert OccursAt(c, "(", |name|);
  }

  /** A colour function keeps its first three channels, trimmed, under the name with an alpha; one that
      is missing is written `undefined`. */
  lemma FunctionChannels(color: string, fn: string, inner: string, a: string)
    requires Matched(Trim(color)) == Some((fn, inner))
    ensures var p := Split(inner, ',');
      WithAlpha(color, a) ==
        (if fn in {"hsl", "hsla"} then "hsla" else "rgba")
        + "(" + Trim(p[0]) + ", " + (if |p| > 1 then Trim(p[1]) else "undefined")
        + ", " + (if |p| > 2 then Trim(p[2]) else "undefined") + ", " + a + ")"
  {
    hide Trim, Matched, Split, Call, ParseHex, SixDigits;
    FamilyExactly(Trim(color));
    var name := MatchedParts(Trim(color));
    assert Trim(color)[0] == name[0];
    var p := Split(inner, ',');
    CallReads("hsla", Part(p, 0), Part(p, 1), Part(p, 2), a);
    CallReads("rgba", Part(p, 0), Part(p, 1), Part(p, 2), a);
  }

  lemma HexCall(x1: char, x2: char, y1: char, y2: char, z1: char, z2: char, a: string)
    requires IsHex(x1) && IsHex(x2) && IsHex(y1) && IsHex(y2) && IsHex(z1) && IsHex(z2)
    ensures WithAlpha(['#', x1, x2, y1, y2, z1, z2], a) ==
      Call("rgba", Decimal(16 * HexValue(x1) + HexValue(x2)), Decimal(16 * HexValue(y1) + HexValue(y2)),
           Decimal(16 * HexValue(z1) + HexValue(z2)), a)
  {
    hide ParseHex, Call, Decimal, Trim, HexValue;
    var s := ['#', x1, x2, y1, y2, z1, z2];
    TrimmedAlready(s);
    assert s[1..] == [x1, x2, y1, y2, z1, z2];
    SixDigitsRead(x1, x2, y1, y2, z1, z2);
    Unpacked(16 * HexValue(x1) + HexValue(x2), 16 * HexValue(y1) + HexValue(y2), 16 * HexValue(z1) + HexValue(z2));
  }

  /** A six-digit colour keeps its channels: red, green and blue are its pairs of digits. */
  lemma HexChannels(x1: char, x2: char, y1: char, y2: char, z1: char, z2: char, a: string)
    requires IsHex(x1) && IsHex(x2) && IsHex(y1) && IsHex(y2) && IsHex(z1) && IsHex(z2)
    ensures WithAlpha(['#', x1, x2, y1, y2, z1, z2], a) ==
      "rgba(" + Decimal(16 * HexValue(x1) + HexValue(x2)) + ", " + Decimal(16 * HexValue(y1) + HexValue(y2))
      + ", " + Decimal(16 * HexValue(z1) + HexValue(z2)) + ", " + a + ")"
  {
    hide Call, Decimal, HexValue, WithAlpha, IsHex;
    HexCall(x1, x2, y1, y2, z1, z2, a);
    var x, y := Decimal(16 * HexValue(x1) + HexValue(x2)), Decimal(16 * HexValue(y1) + HexValue(y2));
    CallReads("rgba", x, y, Decimal(16 * HexValue(z1) + HexValue(z2)), a);
    assert "rgba" + "(" == "rgba(";
  }

  // ---- the two implementations --------------------------------------------------------

  /** The red, green and blue of a packed colour, as one number. */
  function Channels(n: int): nat {
    n % 0x100_0000
  }

  /** A string that is itself an `hsla` fade to `a`. */
  ghost predicate IsFade(t: string, a: string) {
    exists x: string, y: string, z: string ::
      t == Call("hsla", x, y, z, a) && Separable(x) && Separable(y) && Separable(z)
  }

  /** What a part of a comma-separated list may be. */
  ghost predicate Separable(x: string) {
    ',' !in x && (x == "" || (!IsSpace(x[0]) && !IsSpace(x[|x| - 1])))
  }

  /** When the two implementations agree. */
  ghost predicate SameFade(c: string, a: string) {
    var t := Trim(c);
    if "#" <= c then
      var n := ParseHex(SixDigits(t[1..]));
      if c == t || (|c| != 4 && |t| != 4) then n.Some?
      // white space at the end makes three characters of two, or of three more, and only three are
      // doubled: the one reads every digit twice and the other once
      else n == Some(0) && SoftHex(c[1..]) == 0
    else
      !("#" <= t) &&
      match Matched(t)
      case Some((fn, _)) => fn == "hsl" || fn == "hsla"
      case None => IsFade(t, a)
  }

  lemma {:induction false} DecimalInjective(m: nat, n: nat)
    requires Decimal(m) == Decimal(n)
    ensures m == n
  {
    var s, t := Decimal(m), Decimal(n);
    if m < 10 || n < 10 {
      assert s[0] == t[0];
    } else {
      assert s[|s| - 1] == t[|t| - 1];
      assert s[..|s| - 1] == Decimal(m / 10) && t[..|t| - 1] == Decimal(n / 10);
      DecimalInjective(m / 10, n / 10);
    }
  }

  /** The first three parts of the text between the parentheses of a call. */
  lemma ThreeParts(x: string, y: string, z: string, a: string)
    requires Separable(x) && Separable(y) && Separable(z)
    ensures var parts := Split(x + ", " + y + ", " + z + ", " + a, ',');
      |parts| >= 3 && Part(parts, 0) == x && Part(parts, 1) == y && Part(parts, 2) == z
  {
    hide Split, Trim;
    SeparableTrim(x);
    SeparableTrim(y);
    SeparableTrim(z);
    PartsJoined(x, y, z, a);
    SplitPart(x, ',', (" " + y) + [','] + ((" " + z) + [','] + (" " + a)));
    SplitPart(" " + y, ',', (" " + z) + [','] + (" " + a));
    SplitPart(" " + z, ',', " " + a);
  }

  lemma SeparableTrim(x: string)
    requires Separable(x)
    ensures Trim(x) == x && Trim(" " + x) == x && ',' !in " " + x
  {
    TrimmedAlready(x);
    TrimPadded(" ", x, "");
    assert " " + x + "" == " " + x;
  }

  /** A call determines its first three arguments. */
  lemma CallInjective(fn: string, x: string, y: string, z: string, x': string, y': string, z': string, a: string)
    requires Call(fn, x, y, z, a) == Call(fn, x', y', z', a)
    requires Separable(x) && Separable(y) && Separable(z) && Separable(x') && Separable(y') && Separable(z')
    ensures x == x' && y == y' && z == z'
  {
    hide Split, Trim, Part, Separable;
    var u, v := x + ", " + y + ", " + z + ", " + a, x' + ", " + y' + ", " + z' + ", " + a;
    var s, t := Call(fn, x, y, z, a), Call(fn, x', y', z', a);
    assert s == fn + "(" + u + ")" && t == fn + "(" + v + ")";
    assert s[|fn| + 1..|s| - 1] == u && t[|fn| + 1..|t| - 1] == v;
    ThreeParts(x, y, z, a);
    ThreeParts(x', y', z', a);
  }

  lemma DecimalSeparable(n: nat)
    ensures Separable(Decimal(n))
  {
    hide Decimal;
  }

  lemma PackedChannels(m: int, n: int)
    ensures Channels(m) == Channels(n) <==>
      (m / 65536) % 256 == (n / 65536) % 256 && (m / 256) % 256 == (n / 256) % 256 && m % 256 == n % 256
  {
    hide Channels;
    Unpack(m);
    Unpack(n);
    ThreeBytes((m / 65536) % 256, (m / 256) % 256, m % 256, (n / 65536) % 256, (n / 256) % 256, n % 256);
  }

  lemma ThreeBytes(x: nat, y: nat, z: nat, x': nat, y': nat, z': nat)
    requires x < 256 && y < 256 && z < 256 && x' < 256 && y' < 256 && z' < 256
    ensures 65536 * x + 256 * y + z == 65536 * x' + 256 * y' + z' <==> x == x' && y == y' && z == z'
  {
  }

  lemma Unpack(n: int)
    ensures Channels(n) == 65536 * ((n / 65536) % 256) + 256 * ((n / 256) % 256) + n % 256
  {
    var a, b, c := n / 256, n / 65536, n / 0x100_0000;
    assert n == 256 * a + n % 256;
    assert a / 256 == b && a == 256 * b + a % 256;
    assert b / 256 == c && b == 256 * c + b % 256;
    ModUnique(n, c, 0x100_0000, 65536 * (b % 256) + 256 * (a % 256) + n % 256);
  }

  /** Packed colours print alike exactly when their channels are the same. */
  lemma PackedAlike(m: int, n: int, a: string)
    ensures FromPacked(m, a) == FromPacked(n, a) <==> Channels(m) == Channels(n)
  {
    hide Decimal, Channels, Call, Separable;
    PackedChannels(m, n);
    var x, y, z := (m / 65536) % 256, (m / 256) % 256, m % 256;
    var x', y', z' := (n / 65536) % 256, (n / 256) % 256, n % 256;
    if FromPacked(m, a) == FromPacked(n, a) {
      DecimalSeparable(x);
      DecimalSeparable(y);
      DecimalSeparable(z);
      DecimalSeparable(x');
      DecimalSeparable(y');
      DecimalSeparable(z');
      CallInjective("rgba", Decimal(x), Decimal(y), Decimal(z), Decimal(x'), Decimal(y'), Decimal(z'), a);
      DecimalInjective(x, x');
      DecimalInjective(y, y');
      DecimalInjective(z, z');
    }
  }

  lemma CallFirst(fn: string, x: string, y: string, z: string, a: string)
    requires fn != ""
    ensures Call(fn, x, y, z, a) != "" && Call(fn, x, y, z, a)[0] == fn[0]
  {
  }

  /** What `soft` cuts out of any text: from behind the first opening bracket, or the start, up to the
      last closing one; without one, all but the last character. */
  lemma SoftReads(c: string, open: int, close: int)
    requires if open == -1 then '(' !in c else 0 <= open < |c| && c[open] == '(' && '(' !in c[..open]
    requires -1 <= close < |c| && (close >= 0 ==> c[close] == ')') && forall k :: close < k < |c| ==> c[k] != ')'
    ensures SliceText(c, (IndexOf(c, "(", 0) + 1) as nat, LastIndexOf(c, ')')) ==
      if close == -1 then (if open + 2 <= |c| then c[open + 1..|c| - 1] else "")
      else if open < close then c[open + 1..close] else ""
  {
    FirstBracket(c, open);
    LastBracket(c, close);
    hide IndexOf, LastIndexOf;
    SliceReads(c, (open + 1) as nat, close);
  }

  lemma SliceReads(c: string, from: nat, to: int)
    requires -1 <= to <= |c| && from <= |c|
    ensures SliceText(c, from, to) ==
      if to == -1 then (if from + 1 <= |c| then c[from..|c| - 1] else "")
      else if from <= to then c[from..to] else ""
  {
  }

  lemma LastBracket(c: string, close: int)
    requires -1 <= close < |c| && (close >= 0 ==> c[close] == ')') && forall k :: close < k < |c| ==> c[k] != ')'
    ensures LastIndexOf(c, ')') == close
  {
    hide LastIndexOf;
  }

  lemma FirstBracket(c: string, open: int)
    requires if open == -1 then '(' !in c else 0 <= open < |c| && c[open] == '(' && '(' !in c[..open]
    ensures IndexOf(c, "(", 0) == open
  {
    hide IndexOf;
    var n := if open == -1 then |c| else open;
    forall k: nat | k < n
      ensures !OccursAt(c, "(", k)
    {
      assert c[k] == c[..n][k];
      assert c[k..k + 1][0] == c[k];
    }
    if open >= 0 {
      assert c[open..open + 1] == "(";
      assert OccursAt(c, "(", open);
    }
  }

  /** What `soft` cuts out of a call, white space around it or not, is what stands in its parentheses. */
  lemma SoftCuts(before: string, fn: string, inner: string, after: string)
    requires forall k :: 0 <= k < |before| ==> IsSpace(before[k])
    requires forall k :: 0 <= k < |after| ==> IsSpace(after[k])
    requires '(' !in fn
    ensures var c := before + (fn + "(" + inner + ")") + after;
      SliceText(c, (IndexOf(c, "(", 0) + 1) as nat, LastIndexOf(c, ')')) == inner
  {
    hide IndexOf, IsSpace;
    SpaceIsNoBracket();
    var c := before + (fn + "(" + inner + ")") + after;
    var open, close := |before| + |fn|, |before| + |fn| + 1 + |inner|;
    assert c == before + fn + "(" + inner + ")" + after;
    forall k: nat | k < open
      ensures !OccursAt(c, "(", k)
    {
      assert c[k] == if k < |before| then before[k] else fn[k - |before|];
      assert c[k..k + 1][0] == c[k];
    }
    assert c[open..open + 1] == "(";
    assert OccursAt(c, "(", open);
    assert IndexOf(c, "(", 0) == open;
    assert c[close] == ')';
    assert forall k :: close < k < |c| ==> c[k] == after[k - close - 1];
    assert LastIndexOf(c, ')') == close;
    assert c[open + 1..close] == inner;
  }

  lemma SpaceIsNoBracket()
    ensures !IsSpace('(') && !IsSpace(')')
  {
  }

  lemma TrimParts(c: string) returns (before: string, after: string)
    ensures c == before + Trim(c) + after
    ensures forall k :: 0 <= k < |before| ==> IsSpace(before[k])
    ensures forall k :: 0 <= k < |after| ==> IsSpace(after[k])
  {
    hide IsSpace, TrimEnd, Spaces;
    var s := TrimStart(c);
    before, after := c[..Spaces(c)], s[|Trim(c)|..];
    assert s == Trim(c) + after;
    assert c == before + s;
  }

  lemma NoneBefore(t: string, at: nat)
    requires at <= |t| && forall k: nat :: k < at ==> !OccursAt(t, "(", k)
    ensures '(' !in t[..at]
  {
    forall k | 0 <= k < at
      ensures t[k] != '('
    {
      assert t[k..k + 1] == [t[k]];
      assert !OccursAt(t, "(", k);
    }
  }

  lemma MatchedAt(t: string) returns (at: nat)
    requires Matched(t).Some?
    ensures at == IndexOf(t, "(", 0) && at < |t| && t[at..at + 1] == "(" && Lower(t[..at]) in Functions()
    ensures t[at + 1..] == Matched(t).value.1 + ")"
  {
    hide IndexOf, Lower, Functions;
    at := IndexOf(t, "(", 0);
    var rest := t[at + 1..];
    assert rest == rest[..|rest| - 1] + ")";
  }

  lemma MatchedParts(t: string) returns (name: string)
    requires Matched(t).Some?
    ensures t == name + "(" + Matched(t).value.1 + ")" && '(' !in name && name != "" && name[0] != '#'
  {
    hide IndexOf, Lower, Functions, Matched, OccursAt;
    var at := MatchedAt(t);
    name := t[..at];
    CutAround(t, at);
    NoneBefore(t, at);
    NameStarts(name);
    var inner := Matched(t).value.1;
    assert name + "(" + (inner + ")") == name + "(" + inner + ")";
  }

  lemma NameStarts(name: string)
    requires Lower(name) in Functions()
    ensures name != "" && name[0] != '#'
  {
    assert |Lower(name)| > 0 && Lower(name)[0] == LowerChar(name[0]);
  }

  lemma FamilyExactly(c: string)
    requires Matched(c).Some?
    ensures var fn := Matched(c).value.0;
      if fn == "hsl" || fn == "hsla" then Family(fn) == "hsla" else Family(fn) == "rgba"
  {
    hide IndexOf;
    var fn := Matched(c).value.0;
    assert fn in Functions();
  }

  lemma PartSeparable(inner: string, k: nat)
    ensures Separable(Part(Split(inner, ','), k))
  {
    hide Trim, Split;
    var parts := Split(inner, ',');
    if k < |parts| {
      TrimKeepsOut(parts[k], ',');
      TrimEnds(parts[k]);
    }
  }

  // ---- what white space at the end does to a hex colour ---------------------------------

  lemma {:induction false} DigitsTail(s: string, w: string, so: nat)
    requires forall k :: 0 <= k < |w| ==> IsSpace(w[k])
    ensures HexDigits(s + w, so) == HexDigits(s, so)
  {
    if s == "" {
      assert s + w == w;
      SpaceIsNoDigit(w);
    } else {
      assert (s + w)[1..] == s[1..] + w;
      if IsHex(s[0]) {
        DigitsTail(s[1..], w, 16 * so + HexValue(s[0]));
      }
    }
  }

  lemma SpaceIsNoDigit(w: string)
    requires forall k :: 0 <= k < |w| ==> IsSpace(w[k])
    ensures w != "" ==> !IsHex(w[0]) && w[0] != '-' && w[0] != '+' && LowerChar(w[0]) != 'x'
  {
  }

  lemma UnprefixedTail(u: string, w: string)
    requires forall k :: 0 <= k < |w| ==> IsSpace(w[k])
    ensures Unprefixed(u + w) == Unprefixed(u) + w
  {
    hide IsSpace;
    SpaceIsNoDigit(w);
    var s := u + w;
    assert |u| >= 2 ==> s[2..] == u[2..] + w;
    assert |u| == 1 && w != "" ==> s[1] == w[0];
    assert u == "" && w != "" ==> s[0] == w[0];
    assert IsHex('0');
  }

  lemma ReadTail(t: string, w: string)
    requires forall k :: 0 <= k < |w| ==> IsSpace(w[k])
    ensures ReadHex(t + w) == ReadHex(t)
  {
    hide IsSpace, HexDigits, Unprefixed, IsHex;
    SpaceIsNoDigit(w);
    var s := t + w;
    var signed := t != "" && (t[0] == '-' || t[0] == '+');
    var u := if signed then t[1..] else t;
    assert signed ==> s[1..] == u + w;
    assert t == "" ==> s == w;
    UnprefixedTail(u, w);
    var v := Unprefixed(u);
    DigitsTail(v, w, 0);
    assert v == "" ==> v + w == w;
  }

  /** White space at the end changes no number. */
  lemma ParseTail(s: string, w: string)
    requires forall k :: 0 <= k < |w| ==> IsSpace(w[k])
    ensures ParseHex(s + w) == ParseHex(s)
  {
    hide ReadHex, Spaces, IsSpace;
    var n := Spaces(s);
    if n == |s| {
      AllSpace(s, w);
    } else {
      TrimStartTail(s, w);
      ReadTail(TrimStart(s), w);
    }
  }

  // ---- three characters, read once and read twice ---------------------------------------

  lemma {:induction false} DoubledMore(s: string, once: nat, twice: nat)
    requires twice >= 17 * once
    ensures HexDigits(Doubled(s), twice) >= 17 * HexDigits(s, once)
  {
    if s == "" || !IsHex(s[0]) {
      DoubledStarts(s);
    } else {
      HexIsNoLineEnd(s[0]);
      var d := HexValue(s[0]);
      TwoDigits(s[0], s[0], Doubled(s[1..]), twice);
      assert Doubled(s) == [s[0], s[0]] + Doubled(s[1..]);
      DoubledMore(s[1..], 16 * once + d, 256 * twice + (16 * d + d));
    }
  }

  lemma HexIsNoLineEnd(c: char)
    requires IsHex(c)
    ensures !IsLineEnd(c) && !IsSpace(c)
  {
  }

  lemma DoubledStarts(s: string)
    ensures Doubled(s) == "" <==> s == ""
    ensures s != "" ==> Doubled(s)[0] == s[0]
    ensures s != "" && !IsLineEnd(s[0]) ==> |Doubled(s)| > 1 && Doubled(s)[1] == s[0]
  {
  }

  lemma {:induction false} DigitsBelow(s: string, so: nat)
    ensures |s| == 0 ==> HexDigits(s, so) == so
    ensures |s| <= 1 ==> HexDigits(s, so) <= 16 * so + 15
    ensures |s| <= 2 ==> HexDigits(s, so) <= 256 * so + 255
    ensures |s| <= 3 ==> HexDigits(s, so) <= 4096 * so + 4095
  {
    if s == "" || !IsHex(s[0]) {
    } else {
      DigitsBelow(s[1..], 16 * so + HexValue(s[0]));
    }
  }

  lemma {:induction false} DoubledBelow(s: string, so: nat)
    ensures |s| == 0 ==> HexDigits(Doubled(s), so) == so
    ensures |s| <= 1 ==> HexDigits(Doubled(s), so) <= 256 * so + 255
    ensures |s| <= 2 ==> HexDigits(Doubled(s), so) <= 65536 * so + 65535
    ensures |s| <= 3 ==> HexDigits(Doubled(s), so) <= 0x100_0000 * so + 0xFF_FFFF
  {
    if s == "" || !IsHex(s[0]) {
      DoubledStarts(s);
    } else {
      HexIsNoLineEnd(s[0]);
      var d := HexValue(s[0]);
      TwoDigits(s[0], s[0], Doubled(s[1..]), so);
      assert Doubled(s) == [s[0], s[0]] + Doubled(s[1..]);
      DoubledBelow(s[1..], 256 * so + (16 * d + d));
    }
  }

  /** White space at the start is doubled or not, and stays white space. */
  lemma {:induction false} DoubledTrims(s: string)
    ensures TrimStart(Doubled(s)) == Doubled(TrimStart(s))
  {
    hide IsSpace, IsLineEnd;
    if s == "" {
    } else if IsSpace(s[0]) {
      DoubledTrims(s[1..]);
      var rest := Doubled(s[1..]);
      SpaceFirst(s[0], s[1..]);
      SpaceFirst(s[0], rest);
      SpaceFirst(s[0], [s[0]] + rest);
      assert [s[0]] + s[1..] == s;
      assert [s[0]] + ([s[0]] + rest) == [s[0], s[0]] + rest;
    } else {
      DoubledStarts(s);
      assert Spaces(s) == 0 && Spaces(Doubled(s)) == 0;
    }
  }

  lemma SpaceFirst(c: char, s: string)
    requires IsSpace(c)
    ensures TrimStart([c] + s) == TrimStart(s)
  {
    assert ([c] + s)[1..] == s;
  }

  /** Doubled, a text is read as a number exactly when it starts with a digit. */
  lemma DoubledReads(r: string)
    requires r == "" || !IsSpace(r[0])
    ensures ReadHex(Doubled(r)) == if r != "" && IsHex(r[0]) then Some(HexDigits(Doubled(r), 0)) else None
  {
    hide HexDigits, IsHex, IsSpace, Doubled;
    DoubledStarts(r);
    var t := Doubled(r);
    if r != "" {
      LineEndIsSpace(r[0]);
      SignIsNoDigit();
      assert t[0] == t[1] == r[0];
      var u := t[1..];
      assert u[0] == t[1];
      ZeroIsNoX();
    }
  }

  lemma LineEndIsSpace(c: char)
    ensures IsLineEnd(c) ==> IsSpace(c)
  {
  }

  lemma SignIsNoDigit()
    ensures !IsHex('-') && !IsHex('+')
  {
  }

  lemma ZeroIsNoX()
    ensures LowerChar('0') != 'x' && LowerChar('-') != 'x' && LowerChar('+') != 'x'
  {
  }

  function OrNothing(n: Option<int>): int {
    match n case None => 0 case Some(k) => k
  }

  /** Of the readings of a text of at most three characters, once and doubled, either one is 0 or the
      doubled one is larger, and neither overflows the channels. */
  lemma ReadingsDiffer(r: string)
    requires |r| <= 3 && (r == "" || !IsSpace(r[0]))
    ensures var a, b := OrNothing(ReadHex(r)), OrNothing(ReadHex(Doubled(r)));
      && -4096 < a < 4096 && 0 <= b < 0x100_0000
      && (b == 0 || b > a >= 0)
  {
    hide HexDigits, Doubled, IsSpace;
    DoubledReads(r);
    DoubledBelow(r, 0);
    if r != "" {
      var u := if r[0] == '-' || r[0] == '+' then r[1..] else r;
      DigitsBelow(Unprefixed(u), 0);
      DigitsBelow(r, 0);
      if IsHex(r[0]) {
        SignIsNoDigit();
        if |r| >= 2 && r[0] == '0' && LowerChar(r[1]) == 'x' {
          PrefixDoubled(r);
        } else {
          DoubledMore(r, 0, 0);
        }
      }
    }
  }

  /** Doubled, the prefix `0x` is two zeros and no digit. */
  lemma PrefixDoubled(r: string)
    requires |r| >= 2 && r[0] == '0' && LowerChar(r[1]) == 'x'
    ensures HexDigits(Doubled(r), 0) == 0
  {
    var rest := Doubled(r[1..]);
    assert Doubled(r) == ['0', '0'] + rest;
    TwoDigits('0', '0', rest, 0);
    DoubledStarts(r[1..]);
    XIsNoDigit(r[1]);
  }

  lemma XIsNoDigit(c: char)
    requires LowerChar(c) == 'x'
    ensures !IsHex(c)
  {
  }

  lemma ChannelsZero(a: int, b: int)
    requires -4096 < a < 4096 && 0 <= b < 0x100_0000 && (b == 0 || b > a >= 0)
    ensures Channels(a) == Channels(b) <==> a == 0 && b == 0
  {
  }

  /** Three characters read as the same colour once and doubled exactly when both are black. */
  lemma ShortReadings(raw: string)
    requires |raw| == 3
    ensures var a, b := OrNothing(ParseHex(raw)), OrNothing(ParseHex(Doubled(raw)));
      Channels(a) == Channels(b) <==> a == 0 && b == 0
  {
    hide ReadHex, Channels, Doubled, Spaces;
    DoubledTrims(raw);
    var r := TrimStart(raw);
    ReadingsDiffer(r);
    ChannelsZero(OrNothing(ReadHex(r)), OrNothing(ReadHex(Doubled(r))));
  }

  /** The digits of a colour with and without white space at the end. */
  lemma TailDigits(raw: string, w: string)
    requires w != "" && forall k :: 0 <= k < |w| ==> IsSpace(w[k])
    ensures |raw| != 3 && |raw + w| != 3 ==> ParseHex(SixDigits(raw + w)) == ParseHex(SixDigits(raw))
    ensures |raw| == 3 ==> ParseHex(SixDigits(raw + w)) == ParseHex(raw)
    ensures |raw + w| == 3 ==> ParseHex(SixDigits(raw)) == ParseHex(raw + w)
  {
    hide ParseHex, Doubled, IsSpace;
    var s := raw + w;
    if |raw| >= 6 {
      assert s[..6] == raw[..6];
    } else {
      var n := if |s| <= 6 then |w| else 6 - |raw|;
      var cut := w[..n];
      assert |s| <= 6 ==> cut == w;
      assert |s| > 6 ==> s[..6] == raw + cut;
      ParseTail(raw, cut);
    }
  }

  lemma TrimmedHash(c: string) returns (w: string)
    requires "#" <= c
    ensures "#" <= Trim(c) && c == Trim(c) + w && forall k :: 0 <= k < |w| ==> IsSpace(w[k])
  {
    hide TrimEnd, IsSpace, TrimStart;
    HashTrimmed(c);
    HashStart(c);
    var t := Trim(c);
    assert t == TrimEnd(c);
    w := c[|t|..];
    assert forall k :: 0 <= k < |w| ==> w[k] == c[|t| + k];
  }

  lemma HashStart(c: string)
    requires "#" <= c
    ensures TrimStart(c) == c
  {
    assert c[0] == '#';
  }

  /** When the channels are the same: what a caller can see of it. */
  lemma SameChannels(c: string, n: int)
    requires "#" <= c && "#" <= Trim(c) && ParseHex(SixDigits(Trim(c)[1..])) == Some(n)
    ensures Channels(SoftHex(c[1..])) == Channels(n) <==>
      c == Trim(c) || (|c| != 4 && |Trim(c)| != 4) || (n == 0 && SoftHex(c[1..]) == 0)
  {
    hide Trim, ParseHex, Channels, Doubled, IsSpace;
    var w := TrimmedHash(c);
    if w == "" {
      assert c == Trim(c);
    } else {
      var raw := Trim(c)[1..];
      assert c[1..] == raw + w;
      TailDigits(raw, w);
      if |raw| == 3 {
        ShortReadings(raw);
      } else if |raw + w| == 3 {
        ShortReadings(raw + w);
      }
    }
  }

  /** On what starts with a `#`, the first character decides unless both read a number. */
  lemma HexAgrees(c: string, a: string)
    requires "#" <= c
    ensures Soft(c, a) == WithAlpha(c, a) <==> SameFade(c, a)
  {
    hide Trim, ParseHex, SixDigits, FromPacked, Channels, Matched;
    HashTrimmed(c);
    var t := Trim(c);
    var n := ParseHex(SixDigits(t[1..]));
    assert Soft(c, a) == FromPacked(SoftHex(c[1..]), a);
    if n.Some? {
      PackedAlike(SoftHex(c[1..]), n.value, a);
      SameChannels(c, n.value);
    } else {
      PackedStarts(SoftHex(c[1..]), a);
    }
  }

  lemma PackedStarts(n: int, a: string)
    ensures FromPacked(n, a) != "" && FromPacked(n, a)[0] == 'r'
  {
    hide Decimal;
  }

  lemma HashTrimmed(c: string)
    requires "#" <= c
    ensures "#" <= Trim(c)
  {
    hide TrimEnd;
    assert c[0] == '#';
    assert TrimStart(c) == c;
    assert !IsSpace(c[0]);
    assert Trim(c)[0] == c[0];
  }

  /** Exactly when the two implementations agree, on every string. */
  lemma SoftAgrees(c: string, a: string)
    ensures Soft(c, a) == WithAlpha(c, a) <==> SameFade(c, a)
  {
    if "#" <= c {
      HexAgrees(c, a);
    } else if "#" <= Trim(c) {
      LateHash(c, a);
    } else {
      CallAgrees(c, a);
    }
  }

  /** A `#` behind white space is a hex colour for the one and none for the other. */
  lemma LateHash(c: string, a: string)
    requires !("#" <= c) && "#" <= Trim(c)
    ensures Soft(c, a) != WithAlpha(c, a)
  {
    hide Trim, ParseHex, SixDigits, FromPacked, Call, Split, Part, SliceText, IndexOf, LastIndexOf;
    var t := Trim(c);
    var parts := SoftParts(c);
    CallFirst("hsla", parts[0], parts[1], parts[2], a);
    var n := ParseHex(SixDigits(t[1..]));
    if n.Some? {
      PackedStarts(n.value, a);
    }
  }

  /** The three parts that `soft` writes. */
  lemma SoftParts(c: string) returns (parts: seq<string>)
    requires !("#" <= c)
    ensures |parts| == 3 && Separable(parts[0]) && Separable(parts[1]) && Separable(parts[2])
    ensures forall a :: Soft(c, a) == Call("hsla", parts[0], parts[1], parts[2], a)
  {
    hide Call, Split, Part, Separable, SliceText, IndexOf, LastIndexOf, Trim;
    var inner := SliceText(c, (IndexOf(c, "(", 0) + 1) as nat, LastIndexOf(c, ')'));
    PartSeparable(inner, 0);
    PartSeparable(inner, 1);
    PartSeparable(inner, 2);
    var ps := Split(inner, ',');
    parts := [Part(ps, 0), Part(ps, 1), Part(ps, 2)];
  }

  lemma CallAgrees(c: string, a: string)
    requires !("#" <= c) && !("#" <= Trim(c))
    ensures Soft(c, a) == WithAlpha(c, a) <==> SameFade(c, a)
  {
    hide Trim, Matched, ParseHex, SixDigits, Call, Split, Part, SliceText, IndexOf, LastIndexOf, Separable, Soft;
    var t := Trim(c);
    if Matched(t).Some? {
      MatchedAgrees(c, a);
    } else {
      var parts := SoftParts(c);
      if IsFade(t, a) {
        FadeStays(c, a);
      }
    }
  }

  /** A fade to the same alpha is written by `soft` as it stands. */
  lemma FadeStays(c: string, a: string)
    requires !("#" <= c) && IsFade(Trim(c), a)
    ensures Soft(c, a) == Trim(c)
  {
    hide Trim, Split, Part, SliceText, IndexOf, LastIndexOf, Separable;
    var x, y, z :| Trim(c) == Call("hsla", x, y, z, a) && Separable(x) && Separable(y) && Separable(z);
    var inner := x + ", " + y + ", " + z + ", " + a;
    var before, after := TrimParts(c);
    SoftCuts(before, "hsla", inner, after);
    ThreeParts(x, y, z, a);
  }

  lemma MatchedAgrees(c: string, a: string)
    requires !("#" <= c) && Matched(Trim(c)).Some?
    ensures !("#" <= Trim(c)) ==> (Soft(c, a) == WithAlpha(c, a) <==>
      Matched(Trim(c)).value.0 == "hsl" || Matched(Trim(c)).value.0 == "hsla")
  {
    hide Trim, Matched, ParseHex, SixDigits, Call, Split, Part, SliceText, IndexOf, LastIndexOf;
    var t := Trim(c);
    var name := MatchedParts(t);
    var before, after := TrimParts(c);
    var inner := Matched(t).value.1;
    SoftCuts(before, name, inner, after);
    FamilyExactly(t);
    var parts := Split(inner, ',');
    CallFirst("hsla", Part(parts, 0), Part(parts, 1), Part(parts, 2), a);
    CallFirst("rgba", Part(parts, 0), Part(parts, 1), Part(parts, 2), a);
  }

  /** On trimmed hex numbers and on hsl and hsla calls, trimmed or not, they agree. */
  lemma SoftAgreesOn(c: string, a: string)
    requires if "#" <= c then Trim(c) == c && ParseHex(SixDigits(c[1..])).Some?
             else Matched(Trim(c)).Some? && Matched(Trim(c)).value.0 in {"hsl", "hsla"}
    ensures Soft(c, a) == WithAlpha(c, a)
  {
    hide Trim, Matched, ParseHex, SixDigits, Soft, WithAlpha;
    SoftAgrees(c, a);
    if !("#" <= c) {
      var name := MatchedParts(Trim(c));
      assert Trim(c)[0] == name[0];
    }
  }

  // ---- colours on which they differ ---------------------------------------------------

  /** An rgb colour turns into an hsla one, a `#` that is no number into black, and three digits before
      a space are not doubled. */
  lemma SoftDiffers(a: string)
    ensures Soft("rgb(1,2,3)", a) != WithAlpha("rgb(1,2,3)", a)
    ensures Soft("#zz", a) != WithAlpha("#zz", a)
    ensures Soft("#abc ", a) != WithAlpha("#abc ", a)
  {
    hide Soft, WithAlpha, Trim, ParseHex, SixDigits;
    ThreeDigits();
    SoftAgrees("#abc ", a);
    RgbRead();
    SoftAgrees("rgb(1,2,3)", a);
    NoNumber();
    SoftAgrees("#zz", a);
  }

  lemma RgbRead()
    ensures Trim("rgb(1,2,3)") == "rgb(1,2,3)" && Matched("rgb(1,2,3)") == Some(("rgb", "1,2,3"))
  {
    var c := "rgb(1,2,3)";
    TrimmedAlready(c);
    hide Trim, IndexOf, Lower;
    RgbOpens(c);
    RgbName();
    assert c[..3] == "rgb";
    assert c[4..] == "1,2,3)" && "1,2,3)"[..5] == "1,2,3";
  }

  lemma RgbName()
    ensures Lower("rgb") == "rgb" && "rgb" in Functions()
  {
    assert Functions()[3] == "rgb";
  }

  lemma RgbOpens(c: string)
    requires c == "rgb(1,2,3)"
    ensures IndexOf(c, "(", 0) == 3
  {
    hide IndexOf;
    forall k: nat | k < 3
      ensures !OccursAt(c, "(", k)
    {
      assert c[k..k + 1][0] == c[k];
    }
    assert c[3..4] == "(";
    assert OccursAt(c, "(", 3);
  }

  lemma ThreeDigits()
    ensures Trim("#abc ") == "#abc" && ParseHex(SixDigits("#abc"[1..])) != Some(0)
  {
    SpaceAlone();
    TrimTail("#abc", ' ');
    assert "#abc" + [' '] == "#abc ";
    TrimmedAlready("#abc");
    hide Trim, ParseHex;
    assert "#abc"[1..] == "abc" && "abc"[1..] == "bc" && "bc"[1..] == "c" && "c"[1..] == "";
    assert Doubled("c") == "cc" && Doubled("bc") == "bbcc" && Doubled("abc") == "aabbcc";
    SixDigitsRead('a', 'a', 'b', 'b', 'c', 'c');
    assert "aabbcc" == ['a', 'a', 'b', 'b', 'c', 'c'];
  }

  lemma SpaceAlone()
    ensures IsSpace(' ') && !IsSpace('#') && !IsSpace('c')
  {
  }

  lemma NoNumber()
    ensures Trim("#zz") == "#zz" && ParseHex(SixDigits("#zz"[1..])).None?
  {
    TrimmedAlready("#zz");
    hide Trim;
    assert "#zz"[1..] == "zz" && TrimStart("zz") == "zz";
  }
}
