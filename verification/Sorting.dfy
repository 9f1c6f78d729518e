/**
 `Array.prototype.sort`, which is stable, and JavaScript's insertion-ordered `Map`.
 */
module Sorting {

  import opened Lists

  // ---- sorting ------------------------------------------------------------------------

  function Insert<T>(x: T, s: seq<T>, cmp: (T, T) -> int): (r: seq<T>)
    ensures multiset(r) == multiset(s) + multiset{x}
  {
    if s == [] then [x]
    else if cmp(s[0], x) <= 0 then
      assert s == [s[0]] + s[1..];
      [s[0]] + Insert(x, s[1..], cmp)
    else [x] + s
  }

  /** The stable sort of `s` by the comparison `cmp`. */
  function Sort<T>(s: seq<T>, cmp: (T, T) -> int): (r: seq<T>)
    ensures multiset(r) == multiset(s)
    ensures |r| == |s|
  {
    if s == [] then []
    else
      var k := |s| - 1;
      assert s == s[..k] + [s[k]];
      var r := Insert(s[k], Sort(s[..k], cmp), cmp);
      SameSize(r, s);
      r
  }

  lemma SameSize<T>(a: seq<T>, b: seq<T>)
    requires multiset(a) == multiset(b)
    ensures |a| == |b|
  {
    assert |multiset(a)| == |a| && |multiset(b)| == |b|;
  }

  /** `cmp` orders the elements of `s`, ties allowed. */
  ghost predicate Orders<T(!new)>(cmp: (T, T) -> int, s: seq<T>) {
    && (forall x, y :: x in s && y in s ==> cmp(x, y) <= 0 || cmp(y, x) <= 0)
    && (forall x, y, z :: x in s && y in s && z in s && cmp(x, y) <= 0 && cmp(y, z) <= 0 ==> cmp(x, z) <= 0)
  }

  ghost predicate Sorted<T>(s: seq<T>, cmp: (T, T) -> int) {
    forall i, j :: 0 <= i < j < |s| ==> cmp(s[i], s[j]) <= 0
  }

  lemma Members<T>(a: seq<T>, b: seq<T>)
    requires multiset(a) == multiset(b)
    ensures forall x :: x in a <==> x in b
  {
    assert forall x :: x in a <==> x in multiset(a);
    assert forall x :: x in b <==> x in multiset(b);
  }

  lemma OrdersPart<T(!new)>(cmp: (T, T) -> int, s: seq<T>, t: seq<T>)
    requires Orders(cmp, s) && forall x :: x in t ==> x in s
    ensures Orders(cmp, t)
  {
  }

  lemma SortedCons<T>(x: T, s: seq<T>, cmp: (T, T) -> int)
    requires Sorted(s, cmp) && forall j :: 0 <= j < |s| ==> cmp(x, s[j]) <= 0
    ensures Sorted([x] + s, cmp)
  {
  }

  lemma SortedTail<T>(s: seq<T>, cmp: (T, T) -> int)
    requires Sorted(s, cmp) && s != []
    ensures Sorted(s[1..], cmp) && forall j :: 0 <= j < |s| - 1 ==> cmp(s[0], s[1..][j]) <= 0
  {
  }

  lemma LeastBelow<T(!new)>(x: T, s: seq<T>, cmp: (T, T) -> int)
    requires s != [] && Sorted(s, cmp) && Orders(cmp, s + [x]) && cmp(s[0], x) > 0
    ensures forall j :: 0 <= j < |s| ==> cmp(x, s[j]) <= 0
  {
    var all := s + [x];
    assert all[|s|] == x && all[0] == s[0];
    forall j | 0 <= j < |s|
      ensures cmp(x, s[j]) <= 0
    {
      assert all[j] == s[j];
      assert j > 0 ==> cmp(s[0], s[j]) <= 0;
    }
  }

  lemma FirstBelow<T(!new)>(first: T, t: seq<T>, x: T, r: seq<T>, cmp: (T, T) -> int)
    requires multiset(r) == multiset(t) + multiset{x}
    requires cmp(first, x) <= 0 && forall j :: 0 <= j < |t| ==> cmp(first, t[j]) <= 0
    ensures forall j :: 0 <= j < |r| ==> cmp(first, r[j]) <= 0
  {
    forall j | 0 <= j < |r|
      ensures cmp(first, r[j]) <= 0
    {
      assert r[j] in multiset(r);
      if r[j] != x {
        assert r[j] in multiset(t);
        var i :| 0 <= i < |t| && t[i] == r[j];
      }
    }
  }

  lemma {:induction false} InsertSorted<T(!new)>(x: T, s: seq<T>, cmp: (T, T) -> int)
    requires Sorted(s, cmp) && Orders(cmp, s + [x])
    ensures Sorted(Insert(x, s, cmp), cmp)
  {
    hide Orders, Sorted;
    if s == [] {
      SortedNone(cmp);
      SortedCons(x, [], cmp);
      assert [x] + [] == [x];
    } else if cmp(s[0], x) <= 0 {
      var t := s[1..];
      SortedTail(s, cmp);
      assert forall y :: y in t + [x] ==> y in s + [x];
      OrdersPart(cmp, s + [x], t + [x]);
      InsertSorted(x, t, cmp);
      FirstBelow(s[0], t, x, Insert(x, t, cmp), cmp);
      SortedCons(s[0], Insert(x, t, cmp), cmp);
    } else {
      LeastBelow(x, s, cmp);
      SortedCons(x, s, cmp);
    }
  }

  lemma SortedNone<T>(cmp: (T, T) -> int)
    ensures Sorted([], cmp)
  {
  }

  lemma {:induction false} SortSorts<T(!new)>(s: seq<T>, cmp: (T, T) -> int)
    requires Orders(cmp, s)
    ensures Sorted(Sort(s, cmp), cmp)
  {
    if s == [] {
    } else {
      var k := |s| - 1;
      assert s == s[..k] + [s[k]];
      SortSorts(s[..k], cmp);
      var t := Sort(s[..k], cmp);
      Members(t, s[..k]);
      assert forall x :: x in t + [s[k]] ==> x in s;
      InsertSorted(s[k], t, cmp);
    }
  }

  /** Elements that compare equal keep their order. */
  lemma {:induction false} SortStable<T(!new)>(s: seq<T>, cmp: (T, T) -> int, p: T -> bool)
    requires forall x, y :: x in s && y in s && p(x) && p(y) ==> cmp(x, y) <= 0
    requires Orders(cmp, s)
    ensures Filter(p, Sort(s, cmp)) == Filter(p, s)
  {
    if s == [] {
    } else {
      hide Orders, Sorted, Filter, Insert;
      var k := |s| - 1;
      var t := Sort(s[..k], cmp);
      assert s == s[..k] + [s[k]];
      assert forall x :: x in s[..k] ==> x in s;
      OrdersPart(cmp, s, s[..k]);
      SortStable(s[..k], cmp, p);
      SortSorts(s[..k], cmp);
      Members(t, s[..k]);
      OrdersPart(cmp, s, t + [s[k]]);
      InsertStable(s[k], t, cmp, p);
      FilterMore(p, s[..k], s[k]);
    }
  }

  lemma {:induction false} InsertStable<T(!new)>(x: T, s: seq<T>, cmp: (T, T) -> int, p: T -> bool)
    requires forall y, z :: y in s + [x] && z in s + [x] && p(y) && p(z) ==> cmp(y, z) <= 0
    requires Orders(cmp, s + [x]) && Sorted(s, cmp)
    ensures Filter(p, Insert(x, s, cmp)) == Filter(p, s) + (if p(x) then [x] else [])
  {
    hide Orders, Sorted, Filter;
    if s == [] {
      FilterNone(p, []);
      FilterMore(p, [], x);
      assert [] + [x] == [x];
    } else if cmp(s[0], x) <= 0 {
      var t := s[1..];
      assert s == [s[0]] + t;
      OrdersPart(cmp, s + [x], t + [x]);
      SortedTail(s, cmp);
      assert forall y :: y in t + [x] ==> y in s + [x];
      InsertStable(x, t, cmp, p);
      FilterConcat(p, [s[0]], Insert(x, t, cmp));
      FilterConcat(p, [s[0]], t);
    } else {
      FilterConcat(p, [x], s);
      FilterNone(p, []);
      FilterMore(p, [], x);
      assert [] + [x] == [x];
      if p(x) {
        NonePasses(x, s, cmp, p);
        FilterNone(p, s);
      }
    }
  }

  /** Below an element that passes, nothing that sorts after it can pass. */
  lemma NonePasses<T(!new)>(x: T, s: seq<T>, cmp: (T, T) -> int, p: T -> bool)
    requires forall y, z :: y in s + [x] && z in s + [x] && p(y) && p(z) ==> cmp(y, z) <= 0
    requires s != [] && Orders(cmp, s + [x]) && Sorted(s, cmp) && cmp(s[0], x) > 0 && p(x)
    ensures forall y :: y in s ==> !p(y)
  {
    forall y | y in s
      ensures !p(y)
    {
      var all := s + [x];
      var j :| 0 <= j < |s| && s[j] == y;
      assert all[|s|] == x && all[j] == y && all[0] == s[0];
      assert j > 0 ==> cmp(s[0], s[j]) <= 0;
    }
  }

  lemma TailBag<T>(s: seq<T>)
    requires s != []
    ensures multiset(s[1..]) == multiset(s) - multiset{s[0]}
  {
    assert s == [s[0]] + s[1..];
  }

  ghost predicate Strict<T>(s: seq<T>, less: (T, T) -> bool) {
    forall i, j :: 0 <= i < j < |s| ==> less(s[i], s[j])
  }

  lemma SameLeast<T(!new)>(a: seq<T>, b: seq<T>, less: (T, T) -> bool)
    requires a != [] && b != [] && multiset(a) == multiset(b)
    requires forall x, y :: less(x, y) ==> !less(y, x)
    requires Strict(a, less) && Strict(b, less)
    ensures a[0] == b[0]
  {
    Members(a, b);
    assert a[0] in a && b[0] in b;
    var i :| 0 <= i < |b| && b[i] == a[0];
    var j :| 0 <= j < |a| && a[j] == b[0];
    assert i > 0 ==> less(b[0], b[i]);
    assert j > 0 ==> less(a[0], a[j]);
  }

  /** Two arrangements of the same elements that are both strictly in order are the same. */
  lemma {:induction false} StrictUnique<T(!new)>(a: seq<T>, b: seq<T>, less: (T, T) -> bool)
    requires multiset(a) == multiset(b)
    requires forall x, y :: less(x, y) ==> !less(y, x)
    requires Strict(a, less) && Strict(b, less)
    ensures a == b
  {
    SameSize(a, b);
    if a == [] {
    } else {
      SameLeast(a, b, less);
      TailBag(a);
      TailBag(b);
      StrictUnique(a[1..], b[1..], less);
      assert a == [a[0]] + a[1..] && b == [b[0]] + b[1..];
    }
  }

  // ---- what sorting leaves alone ------------------------------------------------------

  ghost predicate DistinctBy<T>(s: seq<T>, key: T -> string) {
    forall i, j :: 0 <= i < j < |s| ==> key(s[i]) != key(s[j])
  }

  lemma {:induction false} InsertDistinct<T>(x: T, s: seq<T>, cmp: (T, T) -> int, key: T -> string)
    requires DistinctBy(s, key) && forall k :: 0 <= k < |s| ==> key(s[k]) != key(x)
    ensures DistinctBy(Insert(x, s, cmp), key)
  {
    if s == [] || cmp(s[0], x) > 0 {
    } else {
      var t := s[1..];
      InsertDistinct(x, t, cmp, key);
      var r := Insert(x, t, cmp);
      forall k | 0 <= k < |r|
        ensures key(r[k]) != key(s[0])
      {
        assert r[k] in multiset(r);
        if r[k] != x {
          assert r[k] in multiset(t);
          var i :| 0 <= i < |t| && t[i] == r[k];
          assert s[i + 1] == r[k];
        }
      }
    }
  }

  lemma {:induction false} SortDistinct<T(!new)>(s: seq<T>, cmp: (T, T) -> int, key: T -> string)
    requires DistinctBy(s, key)
    ensures DistinctBy(Sort(s, cmp), key)
  {
    if s == [] {
    } else {
      var k := |s| - 1;
      var t := Sort(s[..k], cmp);
      SortDistinct(s[..k], cmp, key);
      Members(t, s[..k]);
      forall i | 0 <= i < |t|
        ensures key(t[i]) != key(s[k])
      {
        assert t[i] in s[..k];
      }
      InsertDistinct(s[k], t, cmp, key);
    }
  }

  /** Only comparisons between elements of different keys matter. */
  lemma {:induction false} InsertSame<T>(x: T, s: seq<T>, cmp: (T, T) -> int, cmp': (T, T) -> int)
    requires forall k :: 0 <= k < |s| ==> cmp(s[k], x) == cmp'(s[k], x)
    ensures Insert(x, s, cmp) == Insert(x, s, cmp')
  {
    if s == [] {
    } else {
      InsertSame(x, s[1..], cmp, cmp');
    }
  }

  lemma {:induction false} SortSame<T(!new)>(s: seq<T>, cmp: (T, T) -> int, cmp': (T, T) -> int, key: T -> string)
    requires DistinctBy(s, key)
    requires forall x, y :: x in s && y in s && key(x) != key(y) ==> cmp(x, y) == cmp'(x, y)
    ensures Sort(s, cmp) == Sort(s, cmp')
  {
    if s == [] {
    } else {
      var k := |s| - 1;
      assert s == s[..k] + [s[k]];
      SortSame(s[..k], cmp, cmp', key);
      var t := Sort(s[..k], cmp);
      Members(t, s[..k]);
      forall i | 0 <= i < |t|
        ensures cmp(t[i], s[k]) == cmp'(t[i], s[k])
      {
        assert t[i] in s[..k];
      }
      InsertSame(s[k], t, cmp, cmp');
    }
  }

  lemma {:induction false} MapInsertBag<A, B>(f: A -> B, x: A, s: seq<A>, cmp: (A, A) -> int)
    ensures multiset(Map(f, Insert(x, s, cmp))) == multiset(Map(f, s)) + multiset{f(x)}
  {
    if s == [] || cmp(s[0], x) > 0 {
    } else {
      MapInsertBag(f, x, s[1..], cmp);
    }
  }

  lemma {:induction false} MapMore<A, B>(f: A -> B, s: seq<A>, x: A)
    ensures Map(f, s + [x]) == Map(f, s) + [f(x)]
  {
  }

  lemma {:induction false} MapSortBag<A, B>(f: A -> B, s: seq<A>, cmp: (A, A) -> int)
    ensures multiset(Map(f, Sort(s, cmp))) == multiset(Map(f, s))
  {
    if s == [] {
    } else {
      hide Map, Insert;
      var k := |s| - 1;
      assert s == s[..k] + [s[k]];
      MapSortBag(f, s[..k], cmp);
      MapInsertBag(f, s[k], Sort(s[..k], cmp), cmp);
      MapMore(f, s[..k], s[k]);
    }
  }

  function SumOf<T>(s: seq<T>, f: T -> nat): nat {
    if s == [] then 0 else f(s[0]) + SumOf(s[1..], f)
  }

  lemma {:induction false} SumMore<T>(s: seq<T>, x: T, f: T -> nat)
    ensures SumOf(s + [x], f) == SumOf(s, f) + f(x)
  {
    if s == [] {
      assert [x][1..] == [] && s + [x] == [x];
    } else {
      assert (s + [x])[1..] == s[1..] + [x];
      SumMore(s[1..], x, f);
    }
  }

  lemma {:induction false} SumInsert<T>(x: T, s: seq<T>, cmp: (T, T) -> int, f: T -> nat)
    ensures SumOf(Insert(x, s, cmp), f) == f(x) + SumOf(s, f)
  {
    if s == [] || cmp(s[0], x) > 0 {
      assert Insert(x, s, cmp)[1..] == s;
    } else {
      SumInsert(x, s[1..], cmp, f);
      assert Insert(x, s, cmp)[1..] == Insert(x, s[1..], cmp);
    }
  }

  lemma {:induction false} SumSort<T>(s: seq<T>, cmp: (T, T) -> int, f: T -> nat)
    ensures SumOf(Sort(s, cmp), f) == SumOf(s, f)
  {
    if s == [] {
    } else {
      var k := |s| - 1;
      assert s == s[..k] + [s[k]];
      SumSort(s[..k], cmp, f);
      SumInsert(s[k], Sort(s[..k], cmp), cmp, f);
      SumMore(s[..k], s[k], f);
    }
  }

  // ---- comparing names ----------------------------------------------------------------

  /** `localeCompare`, of which only its laws matter here. */
  datatype Collation = Collation(compare: (string, string) -> int)
  {
    ghost predicate Lawful() {
      && (forall a, b :: compare(a, b) == 0 <==> a == b)
      && (forall a, b :: compare(a, b) < 0 <==> compare(b, a) > 0)
      && (forall a, b, c :: compare(a, b) < 0 && compare(b, c) < 0 ==> compare(a, c) < 0)
    }
  }

  lemma CompareTransitive(coll: Collation, a: string, b: string, c: string)
    requires coll.Lawful() && coll.compare(a, b) <= 0 && coll.compare(b, c) <= 0
    ensures coll.compare(a, c) <= 0
  {
    assert coll.compare(a, b) == 0 ==> a == b;
    assert coll.compare(b, c) == 0 ==> b == c;
  }

  // ---- entries ------------------------------------------------------------------------

  /** Where the entry of a name stands in a `Map`, or the number of entries if it has none. */
  function Place<T>(s: seq<T>, key: T -> string, name: string): (at: nat)
    ensures at <= |s|
    ensures at < |s| ==> key(s[at]) == name
    ensures forall k :: 0 <= k < at ==> key(s[k]) != name
  {
    if s == [] || key(s[0]) == name then 0 else 1 + Place(s[1..], key, name)
  }

  /** `map.set(key(x), x)`: the entry keeps its place, or a new one goes to the end. */
  function SetEntry<T>(s: seq<T>, key: T -> string, x: T): seq<T> {
    var at := Place(s, key, key(x));
    if at < |s| then s[at := x] else s + [x]
  }

  lemma SetDistinct<T>(s: seq<T>, key: T -> string, x: T)
    requires DistinctBy(s, key)
    ensures DistinctBy(SetEntry(s, key, x), key)
  {
    hide Place;
    var at := Place(s, key, key(x));
    var r := SetEntry(s, key, x);
    assert key(r[at]) == key(x);
    assert forall k :: 0 <= k < |s| && k != at ==> r[k] == s[k];
    assert forall k :: at < k < |s| ==> key(s[k]) != key(s[at]);
  }

  /** What is in place of an entry counts instead of it. */
  lemma {:induction false} SumSet<T>(s: seq<T>, key: T -> string, x: T, f: T -> nat)
    ensures var at := Place(s, key, key(x));
      SumOf(SetEntry(s, key, x), f) + (if at < |s| then f(s[at]) else 0) == SumOf(s, f) + f(x)
  {
    if s == [] {
      SumMore([], x, f);
      assert [] + [x] == [x];
    } else if key(s[0]) == key(x) {
      assert SetEntry(s, key, x)[1..] == s[1..];
    } else {
      SumSet(s[1..], key, x, f);
      assert s == [s[0]] + s[1..];
      assert SetEntry(s, key, x) == [s[0]] + SetEntry(s[1..], key, x);
    }
  }

  /** Entries of the same names stand in the same places. */
  lemma {:induction false} SamePlace<A, B>(a: seq<A>, f: A -> string, b: seq<B>, g: B -> string, name: string)
    requires |a| == |b| && forall k :: 0 <= k < |a| ==> f(a[k]) == g(b[k])
    ensures Place(a, f, name) == Place(b, g, name)
  {
    if a == [] {
    } else {
      assert f(a[0]) == g(b[0]);
      SamePlace(a[1..], f, b[1..], g, name);
    }
  }

  // ---- grouping -----------------------------------------------------------------------

  /** The entries of a `Map` from names to lists, in insertion order. */
  type Groups<T> = seq<(string, seq<T>)>

  function NameIn<T>(): ((string, seq<T>)) -> string {
    (g: (string, seq<T>)) => g.0
  }

  function ListOf<T>(groups: Groups<T>, name: string): seq<T> {
    var at := Place(groups, NameIn(), name);
    if at < |groups| then groups[at].1 else []
  }

  /** `list.push(x)` under a name, or a new list. */
  function Put<T>(groups: Groups<T>, name: string, x: T): Groups<T> {
    SetEntry(groups, NameIn(), (name, ListOf(groups, name) + [x]))
  }

  /** The elements of `s` gathered under their names. */
  function Group<T>(s: seq<T>, key: T -> string): Groups<T> {
    if s == [] then []
    else Put(Group(s[..|s| - 1], key), key(s[|s| - 1]), s[|s| - 1])
  }

  /** How many of a group's elements pass. */
  function Passing<T(!new)>(p: T -> bool): ((string, seq<T>)) -> nat {
    (g: (string, seq<T>)) => |Filter(p, g.1)|
  }

  lemma PutSum<T(!new)>(groups: Groups<T>, name: string, x: T, p: T -> bool)
    ensures SumOf(Put(groups, name, x), Passing(p)) == SumOf(groups, Passing(p)) + (if p(x) then 1 else 0)
  {
    hide Filter, Place, SetEntry, SumOf;
    FilterNil(p);
    FilterMore(p, ListOf(groups, name), x);
    SumSet(groups, NameIn(), (name, ListOf(groups, name) + [x]), Passing(p));
  }

  /** The groups together have as many passing elements as the list. */
  lemma {:induction false} GroupSum<T(!new)>(s: seq<T>, key: T -> string, p: T -> bool)
    ensures SumOf(Group(s, key), Passing(p)) == |Filter(p, s)|
  {
    if s == [] {
    } else {
      hide Filter, Put;
      var k := |s| - 1;
      assert s == s[..k] + [s[k]];
      GroupSum(s[..k], key, p);
      PutSum(Group(s[..k], key), key(s[k]), s[k], p);
      FilterMore(p, s[..k], s[k]);
    }
  }

  function Named<T>(key: T -> string, name: string): T -> bool {
    (x: T) => key(x) == name
  }

  /** Every group holds, in order, exactly the elements of its name. */
  ghost predicate Gathers<T(!new)>(groups: Groups<T>, s: seq<T>, key: T -> string) {
    && (forall k :: 0 <= k < |groups| ==>
         groups[k].1 != [] && groups[k].1 == Filter(Named(key, groups[k].0), s))
    && (forall x :: x in s ==> Place(groups, NameIn(), key(x)) < |groups|)
  }

  lemma GatherOne<T(!new)>(groups: Groups<T>, s: seq<T>, key: T -> string, x: T)
    requires DistinctBy(groups, NameIn()) && Gathers(groups, s, key)
    ensures Gathers(Put(groups, key(x), x), s + [x], key)
  {
    hide Place, Filter;
    var name := key(x);
    var at := Place(groups, NameIn(), name);
    var r := Put(groups, name, x);
    forall k | 0 <= k < |r|
      ensures r[k].1 != [] && r[k].1 == Filter(Named(key, r[k].0), s + [x])
    {
      var named := Named(key, r[k].0);
      FilterMore(named, s, x);
      if k < |groups| {
        assert r[k].0 == groups[k].0;
        assert k != at ==> groups[k].0 != name;
      } else {
        FilterNone(named, s);
      }
    }
    forall y | y in s + [x]
      ensures Place(r, NameIn(), key(y)) < |r|
    {
      var at' := Place(groups, NameIn(), key(y));
      assert y in s ==> r[at'].0 == key(y);
      assert y == x ==> r[at].0 == key(y);
    }
  }

  /** Grouping gives distinct names, and gathers every element under its own. */
  lemma {:induction false} GroupGathers<T(!new)>(s: seq<T>, key: T -> string)
    ensures DistinctBy(Group(s, key), NameIn()) && Gathers(Group(s, key), s, key)
  {
    if s == [] {
    } else {
      hide Gathers, DistinctBy, SetEntry;
      var k := |s| - 1;
      assert s == s[..k] + [s[k]];
      GroupGathers(s[..k], key);
      SetDistinct(Group(s[..k], key), NameIn(), (key(s[k]), ListOf(Group(s[..k], key), key(s[k])) + [s[k]]));
      GatherOne(Group(s[..k], key), s[..k], key, s[k]);
    }
  }
}
