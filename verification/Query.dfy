/**
 Query strings: `application/x-www-form-urlencoded` parsing and serializing (section 5 of the
 WHATWG URL Standard) and the `URLSearchParams` list.  A byte sequence is written as its
 isomorphic string: one character below U+0100 for each byte.
 */
module Query {
  import opened Text
  import opened Options

  type Pair = (string, string)

  /** UTF-8, of which only its laws matter here. */
  datatype Utf8 = Utf8(encode: string -> string, decode: string -> string)
  {
    ghost predicate Lawful() {
      && (forall s :: decode(encode(s)) == s)
      && (forall s :: IsBytes(encode(s)))
      && (forall s :: IsAscii(s) ==> encode(s) == s)
    }
  }

  predicate IsBytes(s: string) {
    forall k :: 0 <= k < |s| ==> s[k] as int < 256
  }

  predicate IsAscii(s: string) {
    forall k :: 0 <= k < |s| ==> s[k] as int < 128
  }

  // ---- serializing --------------------------------------------------------------------

  /** The bytes that are written as themselves. */
  predicate IsKept(c: char) {
    || '0' <= c <= '9' || 'A' <= c <= 'Z' || 'a' <= c <= 'z'
    || c == '*' || c == '-' || c == '.' || c == '_'
  }

  function HexDigit(d: int): char
    requires 0 <= d < 16
  {
    if d < 10 then (d + '0' as int) as char else (d - 10 + 'A' as int) as char
  }

  function EncodeByte(c: char): string
    requires c as int < 256
  {
    if c == ' ' then "+"
    else if IsKept(c) then [c]
    else ['%', HexDigit(c as int / 16), HexDigit(c as int % 16)]
  }

  function PercentEncode(bytes: string): string
    requires IsBytes(bytes)
  {
    if bytes == "" then "" else EncodeByte(bytes[0]) + PercentEncode(bytes[1..])
  }

  function EncodePair(p: Pair, utf8: Utf8): string
    requires utf8.Lawful()
  {
    PercentEncode(utf8.encode(p.0)) + "=" + PercentEncode(utf8.encode(p.1))
  }

  function EncodePairs(list: seq<Pair>, utf8: Utf8): (r: seq<string>)
    requires utf8.Lawful()
    ensures |r| == |list| && forall k :: 0 <= k < |list| ==> r[k] == EncodePair(list[k], utf8)
  {
    if list == [] then [] else [EncodePair(list[0], utf8)] + EncodePairs(list[1..], utf8)
  }

  /** `params.toString()`. */
  function Serialize(list: seq<Pair>, utf8: Utf8): string
    requires utf8.Lawful()
  {
    Join(EncodePairs(list, utf8), "&")
  }

  // ---- parsing ------------------------------------------------------------------------

  function PercentDecode(s: string): string {
    if s == "" then ""
    else if s[0] == '%' && |s| >= 3 && IsHex(s[1]) && IsHex(s[2]) then
      [(16 * HexValue(s[1]) + HexValue(s[2])) as char] + PercentDecode(s[3..])
    else [s[0]] + PercentDecode(s[1..])
  }

  function Unplus(s: string): (r: string)
    ensures |r| == |s| && forall k :: 0 <= k < |s| ==> r[k] == if s[k] == '+' then ' ' else s[k]
  {
    seq(|s|, k requires 0 <= k < |s| => if s[k] == '+' then ' ' else s[k])
  }

  function DecodeText(s: string, utf8: Utf8): string {
    utf8.decode(PercentDecode(Unplus(s)))
  }

  function ParsePart(part: string, utf8: Utf8): Pair {
    var at := IndexOf(part, "=", 0);
    if at < 0 then (DecodeText(part, utf8), DecodeText("", utf8))
    else (DecodeText(part[..at], utf8), DecodeText(part[at + 1..], utf8))
  }

  function ParseParts(parts: seq<string>, utf8: Utf8): seq<Pair> {
    if parts == [] then []
    else (if parts[0] == "" then [] else [ParsePart(parts[0], utf8)]) + ParseParts(parts[1..], utf8)
  }

  /** The name-value pairs of a query string. */
  function ParseQuery(query: string, utf8: Utf8): seq<Pair> {
    ParseParts(Split(utf8.encode(query), '&'), utf8)
  }

  // ---- the encoding, byte by byte ----------------------------------------------------------

  /** The digits, the capital and the small letters, and four signs, by their codes. */
  predicate Unreserved(b: int) {
    48 <= b <= 57 || 65 <= b <= 90 || 97 <= b <= 122 || b in {42, 45, 46, 95}
  }

  lemma KeptExactly(c: char)
    ensures IsKept(c) <==> Unreserved(c as int)
  {
  }

  const UPPER_HEX: string := "0123456789ABCDEF"

  lemma HexDigitExactly(d: int)
    requires 0 <= d < 16
    ensures HexDigit(d) == UPPER_HEX[d]
  {
  }

  /** A space is written as a plus, an unreserved byte as itself, any other as a percent sign and two
      upper-case hex digits. */
  lemma ByteExactly(c: char)
    requires c as int < 256
    ensures EncodeByte(c) ==
      if c == ' ' then "+"
      else if Unreserved(c as int) then [c]
      else ['%', UPPER_HEX[c as int / 16], UPPER_HEX[c as int % 16]]
  {
    hide HexDigit, IsKept;
    KeptExactly(c);
    HexDigitExactly(c as int / 16);
    HexDigitExactly(c as int % 16);
  }

  /** What a reader makes of what no writer writes: lower-case escapes, a percent sign that escapes
      nothing, empty parts, and a name without an equals sign. */
  lemma LenientReading(hi: char, lo: char, rest: string, part: string, parts: seq<string>, utf8: Utf8)
    requires utf8.Lawful() && '=' !in part && part != ""
    ensures IsHex(hi) && IsHex(lo) ==>
      PercentDecode(['%', hi, lo] + rest) == [(16 * HexValue(hi) + HexValue(lo)) as char] + PercentDecode(rest)
    ensures !IsHex(hi) || !IsHex(lo) ==> PercentDecode(['%', hi, lo] + rest) == ['%'] + PercentDecode([hi, lo] + rest)
    ensures ParseParts([""] + parts, utf8) == ParseParts(parts, utf8)
    ensures ParseParts([part] + parts, utf8) == [(DecodeText(part, utf8), "")] + ParseParts(parts, utf8)
  {
    var s := ['%', hi, lo] + rest;
    assert s[3..] == rest && s[1..] == [hi, lo] + rest;
    assert ([""] + parts)[1..] == parts && ([part] + parts)[1..] == parts;
    NoEquals(part);
    NothingDecodes(utf8);
    hide PercentDecode, IndexOf, Utf8.Lawful;
  }

  lemma NoEquals(part: string)
    requires '=' !in part
    ensures IndexOf(part, "=", 0) == -1
  {
    hide IndexOf;
    forall k: nat
      ensures !OccursAt(part, "=", k)
    {
      assert k + 1 <= |part| ==> part[k..k + 1][0] == part[k];
    }
  }

  lemma NothingDecodes(utf8: Utf8)
    requires utf8.Lawful()
    ensures DecodeText("", utf8) == ""
  {
    assert IsAscii("");
    assert utf8.encode("") == "" && utf8.decode(utf8.encode("")) == "";
    assert Unplus("") == "";
  }

  // ---- parsing undoes serializing -----------------------------------------------------

  lemma {:induction false} UnplusConcat(a: string, b: string)
    ensures Unplus(a + b) == Unplus(a) + Unplus(b)
  {
  }

  lemma HexRoundTrip(d: int)
    requires 0 <= d < 16
    ensures IsHex(HexDigit(d)) && HexValue(HexDigit(d)) == d && HexDigit(d) != '+'
  {
  }

  lemma ByteRoundTrip(c: char, rest: string)
    requires c as int < 256
    ensures PercentDecode(Unplus(EncodeByte(c)) + rest) == [c] + PercentDecode(rest)
  {
    var e := Unplus(EncodeByte(c));
    if c != ' ' && !IsKept(c) {
      var hi, lo := c as int / 16, c as int % 16;
      HexRoundTrip(hi);
      HexRoundTrip(lo);
      assert e == ['%', HexDigit(hi), HexDigit(lo)];
      assert (e + rest)[3..] == rest;
    } else {
      assert e == [c];
      assert (e + rest)[1..] == rest;
    }
  }

  lemma {:induction false} BytesRoundTrip(bytes: string)
    requires IsBytes(bytes)
    ensures PercentDecode(Unplus(PercentEncode(bytes))) == bytes
  {
    hide PercentDecode, Unplus, EncodeByte;
    if bytes == "" {
      NothingDecoded();
    } else {
      BytesRoundTrip(bytes[1..]);
      UnplusConcat(EncodeByte(bytes[0]), PercentEncode(bytes[1..]));
      ByteRoundTrip(bytes[0], Unplus(PercentEncode(bytes[1..])));
      assert [bytes[0]] + bytes[1..] == bytes;
    }
  }

  lemma NothingDecoded()
    ensures PercentDecode(Unplus("")) == ""
  {
  }

  /** Percent-encoded text is ASCII and has no delimiter in it. */
  lemma {:induction false} EncodedCharacters(bytes: string)
    requires IsBytes(bytes)
    ensures forall k :: 0 <= k < |PercentEncode(bytes)| ==>
      var c := PercentEncode(bytes)[k]; c != '&' && c != '=' && c as int < 128
  {
    if bytes == "" {
    } else {
      EncodedCharacters(bytes[1..]);
    }
  }

  lemma PairRoundTrip(p: Pair, utf8: Utf8)
    requires utf8.Lawful()
    ensures var e := EncodePair(p, utf8);
      e != "" && '&' !in e && IsAscii(e) && ParsePart(e, utf8) == p
  {
    hide PercentEncode, PercentDecode, Unplus;
    var name, value := PercentEncode(utf8.encode(p.0)), PercentEncode(utf8.encode(p.1));
    var e := EncodePair(p, utf8);
    EncodedCharacters(utf8.encode(p.0));
    EncodedCharacters(utf8.encode(p.1));
    BytesRoundTrip(utf8.encode(p.0));
    BytesRoundTrip(utf8.encode(p.1));
    assert e == name + "=" + value;
    forall k: nat | k < |name|
      ensures !OccursAt(e, "=", k)
    {
      assert e[k] == name[k];
      assert e[k..k + 1][0] == e[k];
    }
    assert e[|name|..|name| + 1] == "=";
    assert OccursAt(e, "=", |name|);
    assert IndexOf(e, "=", 0) == |name|;
    assert e[..|name|] == name && e[|name| + 1..] == value;
  }

  lemma {:induction false} PartsRoundTrip(list: seq<Pair>, utf8: Utf8)
    requires utf8.Lawful()
    ensures ParseParts(EncodePairs(list, utf8), utf8) == list
  {
    hide ParsePart, EncodePair, Utf8.Lawful, IsAscii, IsBytes;
    if list == [] {
    } else {
      PairRoundTrip(list[0], utf8);
      PartsRoundTrip(list[1..], utf8);
      assert EncodePairs(list, utf8)[1..] == EncodePairs(list[1..], utf8);
    }
  }

  lemma {:induction false} JoinedAscii(parts: seq<string>)
    requires forall k :: 0 <= k < |parts| ==> IsAscii(parts[k])
    ensures IsAscii(Join(parts, "&"))
  {
    if |parts| <= 1 {
    } else {
      JoinedAscii(parts[1..]);
      assert "&"[0] as int < 128;
      var a, b := parts[0] + "&", Join(parts[1..], "&");
      assert forall k :: 0 <= k < |a| ==> a[k] as int < 128;
    }
  }

  /** Any list of name-value pairs survives being written into a query string and read back. */
  lemma QueryRoundTrip(list: seq<Pair>, utf8: Utf8)
    requires utf8.Lawful()
    ensures ParseQuery(Serialize(list, utf8), utf8) == list
    ensures IsAscii(Serialize(list, utf8))
  {
    hide ParsePart, EncodePair;
    var parts := EncodePairs(list, utf8);
    forall k | 0 <= k < |parts|
      ensures '&' !in parts[k] && IsAscii(parts[k])
    {
      PairRoundTrip(list[k], utf8);
    }
    JoinedAscii(parts);
    if list == [] {
      EmptyQuery(utf8);
    } else {
      SplitJoin(parts, '&');
      PartsRoundTrip(list, utf8);
    }
  }

  lemma EmptyQuery(utf8: Utf8)
    ensures ParseParts(Split("", '&'), utf8) == []
  {
    assert [""][1..] == [];
  }

  // ---- the list of parameters ---------------------------------------------------------

  /** The first value of a name. */
  function First(list: seq<Pair>, name: string): Option<string> {
    if list == [] then None else if list[0].0 == name then Some(list[0].1) else First(list[1..], name)
  }

  function Without(list: seq<Pair>, name: string): seq<Pair> {
    if list == [] then []
    else (if list[0].0 == name then [] else [list[0]]) + Without(list[1..], name)
  }

  /** `params.set(name, value)`: the first pair of that name is changed and the others go, or a new
      pair goes to the end. */
  function With(list: seq<Pair>, name: string, value: string): seq<Pair> {
    if list == [] then [(name, value)]
    else if list[0].0 == name then [(name, value)] + Without(list[1..], name)
    else [list[0]] + With(list[1..], name, value)
  }

  class UrlSearchParams {
    var list: seq<Pair>

    constructor (pairs: seq<Pair>)
      ensures list == pairs
    {
      list := pairs;
    }

    /** The first pair of a name gets the value and the others go; or a new pair goes to the end. */
    method Set(name: string, value: string)
      modifies this
      ensures list == With(old(list), name, value)
      ensures Values(list, name) == [value] && Without(list, name) == Without(old(list), name)
    {
      hide With, Without, Values;
      ghost var before := list;
      var i := 0;
      assert before[..0] == [] && before[0..] == before;
      while i < |list| && list[i].0 != name
        invariant i <= |list|
        invariant list == before
        invariant With(before, name, value) == before[..i] + With(before[i..], name, value)
      {
        WithLater(before, i, name, value);
        i := i + 1;
      }
      WithReads(before, name, value);
      WithHere(before, i, name, value);
      if i == |list| {
        list := list + [(name, value)];
      } else {
        list := list[i := (name, value)];
        assert list[..i + 1] == before[..i] + [(name, value)] && list[i + 1..] == before[i + 1..];
        RemoveFrom(i + 1, name);
      }
    }

    method Delete(name: string)
      modifies this
      ensures list == Without(old(list), name)
      ensures Values(list, name) == [] && Without(list, name) == list
    {
      WithoutReads(list, name);
      RemoveFrom(0, name);
    }

    /** Remove the pairs of a name at and after a place, one by one. */
    method RemoveFrom(from: nat, name: string)
      requires from <= |list|
      modifies this
      ensures list == old(list)[..from] + Without(old(list)[from..], name)
    {
      ghost var before := list;
      var i := from;
      while i < |list|
        invariant from <= i <= |list|
        invariant list[..i] + Without(list[i..], name) == before[..from] + Without(before[from..], name)
        decreases |list| - i
      {
        assert list[i..][1..] == list[i + 1..];
        if list[i].0 == name {
          ghost var was := list;
          list := list[..i] + list[i + 1..];
          assert list[i..] == was[i + 1..] && list[..i] == was[..i];
        } else {
          assert list[..i + 1] == list[..i] + [list[i]];
          i := i + 1;
        }
      }
      assert list[i..] == [] && list[..i] == list;
    }
  }

  lemma WithLater(list: seq<Pair>, i: nat, name: string, value: string)
    requires i < |list| && list[i].0 != name
    ensures list[..i] + With(list[i..], name, value) == list[..i + 1] + With(list[i + 1..], name, value)
  {
    assert list[i..][1..] == list[i + 1..];
  }

  lemma WithHere(list: seq<Pair>, i: nat, name: string, value: string)
    requires i <= |list| && (i < |list| ==> list[i].0 == name)
    requires With(list, name, value) == list[..i] + With(list[i..], name, value)
    ensures With(list, name, value) ==
      if i == |list| then list + [(name, value)] else list[..i] + [(name, value)] + Without(list[i + 1..], name)
  {
    if i == |list| {
      assert list[i..] == [] && list[..i] == list;
    } else {
      assert list[i..][1..] == list[i + 1..];
    }
  }

  /** Removing a name leaves none of its values, and nothing more to remove. */
  lemma {:induction false} WithoutReads(list: seq<Pair>, name: string)
    ensures Values(Without(list, name), name) == []
    ensures Without(Without(list, name), name) == Without(list, name)
  {
    if list == [] {
    } else {
      WithoutReads(list[1..], name);
      var rest := Without(list[1..], name);
      assert ([list[0]] + rest)[1..] == rest && [] + rest == rest;
    }
  }

  /** Setting a name leaves it the one value, and every other pair in its place. */
  lemma {:induction false} WithReads(list: seq<Pair>, name: string, value: string)
    ensures Values(With(list, name, value), name) == [value]
    ensures Without(With(list, name, value), name) == Without(list, name)
  {
    if list == [] {
      assert [(name, value)][1..] == [];
    } else if list[0].0 == name {
      var rest := Without(list[1..], name);
      WithoutReads(list[1..], name);
      assert ([(name, value)] + rest)[1..] == rest;
    } else {
      WithReads(list[1..], name, value);
      var rest := With(list[1..], name, value);
      assert ([list[0]] + rest)[1..] == rest;
    }
  }

  lemma {:induction false} WithoutFirst(list: seq<Pair>, name: string, other: string)
    ensures First(Without(list, name), other) == if other == name then None else First(list, other)
  {
    if list == [] {
    } else {
      WithoutFirst(list[1..], name, other);
      var rest := Without(list[1..], name);
      assert ([list[0]] + rest)[1..] == rest && [] + rest == rest;
    }
  }

  /** Setting a parameter changes what is read under its name and under no other. */
  lemma {:induction false} WithFirst(list: seq<Pair>, name: string, value: string, other: string)
    ensures First(With(list, name, value), other) == if other == name then Some(value) else First(list, other)
  {
    if list == [] {
      assert [(name, value)][1..] == [];
    } else if list[0].0 == name {
      WithoutFirst(list[1..], name, other);
      assert ([(name, value)] + Without(list[1..], name))[1..] == Without(list[1..], name);
    } else {
      WithFirst(list[1..], name, value, other);
      assert ([list[0]] + With(list[1..], name, value))[1..] == With(list[1..], name, value);
    }
  }

  lemma {:induction false} WithNew(list: seq<Pair>, name: string, value: string)
    requires First(list, name).None?
    ensures With(list, name, value) == list + [(name, value)]
  {
    if list == [] {
    } else {
      WithNew(list[1..], name, value);
      assert list == [list[0]] + list[1..];
    }
  }

  lemma {:induction false} FirstConcat(a: seq<Pair>, b: seq<Pair>, name: string)
    ensures First(a + b, name) == if First(a, name).Some? then First(a, name) else First(b, name)
  {
    if a == [] {
      assert a + b == b;
    } else {
      FirstConcat(a[1..], b, name);
      assert (a + b)[1..] == a[1..] + b;
    }
  }

  // ---- the parameters as a page receives them -----------------------------------------

  /** A parameter of a page: one value, or the values of a repeated name. */
  datatype Param = One(value: string) | Many(values: seq<string>)

  type Params = map<string, Param>

  function Values(list: seq<Pair>, name: string): seq<string> {
    if list == [] then []
    else (if list[0].0 == name then [list[0].1] else []) + Values(list[1..], name)
  }

  function ParamOf(values: seq<string>): Param {
    if |values| == 1 then One(values[0]) else Many(values)
  }

  /** The parameter bag of a list of pairs. */
  function Bag(list: seq<Pair>): Params {
    map name | name in (set p | p in list :: p.0) :: ParamOf(Values(list, name))
  }

  /** The first value of a parameter, whether repeated or not. */
  function FirstOf(params: Params, name: string): Option<string> {
    if name !in params then None
    else match params[name]
      case One(v) => Some(v)
      case Many(vs) => if vs == [] then None else Some(vs[0])
  }

  lemma {:induction false} FirstValue(list: seq<Pair>, name: string)
    ensures First(list, name) == if Values(list, name) == [] then None else Some(Values(list, name)[0])
    ensures First(list, name).Some? <==> name in (set p | p in list :: p.0)
  {
    if list == [] {
    } else {
      FirstValue(list[1..], name);
      assert list == [list[0]] + list[1..];
      assert forall p :: p in list <==> p == list[0] || p in list[1..];
    }
  }

  lemma BagFirst(list: seq<Pair>, name: string)
    ensures FirstOf(Bag(list), name) == First(list, name)
  {
    hide First, Values;
    FirstValue(list, name);
  }
}
