/**
 `filter`, `map` and `flat` on lists.
 */
module Lists {

  function Filter<T(!new)>(p: T -> bool, s: seq<T>): (r: seq<T>)
    ensures forall x :: x in r <==> x in s && p(x)
    ensures |r| <= |s|
  {
    if s == [] then [] else (if p(s[0]) then [s[0]] else []) + Filter(p, s[1..])
  }

  function Map<A, B>(f: A -> B, s: seq<A>): (r: seq<B>)
    ensures |r| == |s|
    ensures forall k :: 0 <= k < |s| ==> r[k] == f(s[k])
  {
    if s == [] then [] else [f(s[0])] + Map(f, s[1..])
  }

  /** `rows.flat()`. */
  function Flat<T>(rows: seq<seq<T>>): seq<T> {
    if rows == [] then [] else rows[0] + Flat(rows[1..])
  }

  lemma FilterNil<T(!new)>(p: T -> bool)
    ensures Filter(p, []) == []
  {
  }

  lemma {:induction false} FilterConcat<T(!new)>(p: T -> bool, s: seq<T>, t: seq<T>)
    ensures Filter(p, s + t) == Filter(p, s) + Filter(p, t)
  {
    if s == [] {
      assert s + t == t;
    } else {
      assert (s + t)[1..] == s[1..] + t;
      FilterConcat(p, s[1..], t);
    }
  }

  lemma FilterMore<T(!new)>(p: T -> bool, s: seq<T>, x: T)
    ensures Filter(p, s + [x]) == Filter(p, s) + (if p(x) then [x] else [])
  {
    FilterConcat(p, s, [x]);
    assert [x][1..] == [];
  }

  lemma {:induction false} FilterSame<T(!new)>(p: T -> bool, q: T -> bool, s: seq<T>)
    requires forall x :: x in s ==> (p(x) <==> q(x))
    ensures Filter(p, s) == Filter(q, s)
  {
    if s == [] {
    } else {
      FilterSame(p, q, s[1..]);
    }
  }

  lemma {:induction false} FilterAll<T(!new)>(p: T -> bool, s: seq<T>)
    requires forall x :: x in s ==> p(x)
    ensures Filter(p, s) == s
  {
    if s == [] {
    } else {
      FilterAll(p, s[1..]);
    }
  }

  lemma {:induction false} FilterNone<T(!new)>(p: T -> bool, s: seq<T>)
    requires forall x :: x in s ==> !p(x)
    ensures Filter(p, s) == []
  {
    if s == [] {
    } else {
      FilterNone(p, s[1..]);
    }
  }

  /** Filtering twice is filtering by both. */
  lemma {:induction false} FilterFilter<T(!new)>(p: T -> bool, q: T -> bool, both: T -> bool, s: seq<T>)
    requires forall x :: x in s ==> (both(x) <==> p(x) && q(x))
    ensures Filter(q, Filter(p, s)) == Filter(both, s)
  {
    if s == [] {
    } else {
      var rest := Filter(p, s[1..]);
      FilterFilter(p, q, both, s[1..]);
      assert ([s[0]] + rest)[1..] == rest && [] + rest == rest;
      assert Filter(p, s) == (if p(s[0]) then [s[0]] else []) + rest;
    }
  }

  /** What passes and what does not make up the list. */
  lemma {:induction false} FilterSplits<T(!new)>(p: T -> bool, q: T -> bool, s: seq<T>)
    requires forall x :: q(x) <==> !p(x)
    ensures |Filter(p, s)| + |Filter(q, s)| == |s|
  {
    if s == [] {
    } else {
      FilterSplits(p, q, s[1..]);
    }
  }

  /** A stronger condition that passes as many elements passes the same ones. */
  lemma {:induction false} FilterTight<T(!new)>(p: T -> bool, q: T -> bool, s: seq<T>)
    requires forall x :: p(x) ==> q(x)
    ensures |Filter(p, s)| <= |Filter(q, s)|
    ensures |Filter(p, s)| == |Filter(q, s)| ==> forall x :: x in s && q(x) ==> p(x)
  {
    if s == [] {
    } else {
      FilterTight(p, q, s[1..]);
      assert s == [s[0]] + s[1..];
    }
  }
}
