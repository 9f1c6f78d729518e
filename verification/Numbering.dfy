/**
 Citation numbering: a memory gets the next number the first time its id is seen.
 */
module Numbering {

  /** `order.indexOf(id)`. */
  function Find(order: seq<string>, id: string): (at: int)
    ensures at == -1 || (0 <= at < |order| && order[at] == id)
    ensures at == -1 <==> id !in order
    ensures forall k :: 0 <= k < at ==> order[k] != id
  {
    if order == [] then -1
    else if order[0] == id then 0
    else
      assert order == [order[0]] + order[1..];
      var at := Find(order[1..], id);
      if at == -1 then -1 else at + 1
  }

  /** `order` after the ids have been met one after the other. */
  function FirstSeen(order: seq<string>, ids: seq<string>): (r: seq<string>)
    ensures order <= r
    ensures forall id :: id in r <==> id in order || id in ids
    decreases |ids|
  {
    if ids == [] then order
    else FirstSeen(if ids[0] in order then order else order + [ids[0]], ids[1..])
  }

  ghost predicate Distinct(order: seq<string>) {
    forall a, b :: 0 <= a < b < |order| ==> order[a] != order[b]
  }

  lemma {:induction false} FirstSeenDistinct(order: seq<string>, ids: seq<string>)
    requires Distinct(order)
    ensures Distinct(FirstSeen(order, ids))
    decreases |ids|
  {
    if ids == [] {
    } else {
      FirstSeenDistinct(if ids[0] in order then order else order + [ids[0]], ids[1..]);
    }
  }

  lemma {:induction false} FirstSeenConcat(order: seq<string>, a: seq<string>, b: seq<string>)
    ensures FirstSeen(order, a + b) == FirstSeen(FirstSeen(order, a), b)
    decreases |a|
  {
    if a == [] {
      assert a + b == b;
    } else {
      assert (a + b)[1..] == a[1..] + b;
      FirstSeenConcat(if a[0] in order then order else order + [a[0]], a[1..], b);
    }
  }

  /** A number, once given, never changes. */
  lemma {:induction false} FindStays(order: seq<string>, longer: seq<string>, id: string)
    requires order <= longer && id in order
    ensures Find(longer, id) == Find(order, id)
  {
    if order[0] == id {
    } else {
      assert order == [order[0]] + order[1..];
      FindStays(order[1..], longer[1..], id);
    }
  }

  /** The ids stand in the order of their first appearance. */
  lemma {:induction false} FirstSeenSorted(ids: seq<string>, a: nat, b: nat)
    requires a < b < |FirstSeen([], ids)|
    ensures var r := FirstSeen([], ids); 0 <= Find(ids, r[a]) < Find(ids, r[b])
    decreases |ids|
  {
    if ids == [] {
    } else {
      var n := |ids| - 1;
      var start, last := ids[..n], ids[n];
      assert ids == start + [last];
      FirstSeenConcat([], start, [last]);
      FirstSeenOne(FirstSeen([], start), last);
      var r, r' := FirstSeen([], ids), FirstSeen([], start);
      FindConcat(start, last, r[a]);
      FindConcat(start, last, r[b]);
      if b < |r'| {
        hide FirstSeen;
        FirstSeenSorted(start, a, b);
      }
    }
  }

  lemma FirstSeenOne(order: seq<string>, id: string)
    ensures FirstSeen(order, [id]) == if id in order then order else order + [id]
  {
    assert [id][1..] == [];
  }

  lemma {:induction false} FindConcat(ids: seq<string>, last: string, id: string)
    ensures Find(ids + [last], id) ==
            if id in ids then Find(ids, id) else if id == last then |ids| else -1
  {
    if ids == [] {
    } else {
      assert (ids + [last])[1..] == ids[1..] + [last];
      FindConcat(ids[1..], last, id);
    }
  }

  class Numbering {
    var order: seq<string>

    constructor ()
      ensures order == []
    {
      order := [];
    }

    /** The number of a memory, appending it when it is new. */
    method NumberFor(id: string) returns (n: nat)
      modifies this
      ensures order == FirstSeen(old(order), [id])
      ensures n == Find(order, id) + 1
      ensures id in old(order) ==> order == old(order) && n == Find(old(order), id) + 1
      ensures id !in old(order) ==> order == old(order) + [id] && n == |order|
    {
      var at := Find(order, id);
      if at >= 0 {
        FirstSeenOne(order, id);
        return at + 1;
      }
      FindConcat(order, id, id);
      FirstSeenOne(order, id);
      order := order + [id];
      n := |order|;
    }
  }
}

