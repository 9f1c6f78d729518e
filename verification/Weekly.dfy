/**
 The observatory's weekly series: the captured and the promoted counts joined on their weeks.
 */
module Weekly {
  import opened Options
  import opened Sorting

  datatype Count = Count(week: string, count: nat)
  datatype WeekPoint = WeekPoint(week: string, captured: nat, promoted: nat)

  function InWeek(): WeekPoint -> string { (p: WeekPoint) => p.week }

  function Captured(series: seq<Count>): seq<WeekPoint> {
    if series == [] then []
    else
      var c := series[|series| - 1];
      SetEntry(Captured(series[..|series| - 1]), InWeek(), WeekPoint(c.week, c.count, 0))
  }

  /** The entry of a week, or a new one for a week with no captured count. */
  function WeekOf(weeks: seq<WeekPoint>, week: string): (p: WeekPoint)
    ensures p.week == week
  {
    var at := Place(weeks, InWeek(), week);
    if at < |weeks| then weeks[at] else WeekPoint(week, 0, 0)
  }

  predicate HasWeek(weeks: seq<WeekPoint>, week: string) {
    Place(weeks, InWeek(), week) < |weeks|
  }

  function Promoted(weeks: seq<WeekPoint>, series: seq<Count>): seq<WeekPoint> {
    if series == [] then weeks
    else
      var before := Promoted(weeks, series[..|series| - 1]);
      var pr := series[|series| - 1];
      SetEntry(before, InWeek(), WeekOf(before, pr.week).(promoted := pr.count))
  }

  function WeekOrder(coll: Collation): (WeekPoint, WeekPoint) -> int {
    (a: WeekPoint, b: WeekPoint) => coll.compare(a.week, b.week)
  }

  function Joined(captured: seq<Count>, promoted: seq<Count>): seq<WeekPoint> {
    Promoted(Captured(captured), promoted)
  }

  function WeeklySeries(captured: seq<Count>, promoted: seq<Count>, coll: Collation): seq<WeekPoint> {
    Sort(Joined(captured, promoted), WeekOrder(coll))
  }

  method MergeWeeks(captured: seq<Count>, promoted: seq<Count>, coll: Collation) returns (weekly: seq<WeekPoint>)
    ensures weekly == WeeklySeries(captured, promoted, coll)
  {
    hide Sort, SetEntry, WeekOf;
    var weeks: seq<WeekPoint> := [];
    for i := 0 to |captured|
      invariant weeks == Captured(captured[..i])
    {
      var c := captured[i];
      weeks := SetEntry(weeks, InWeek(), WeekPoint(c.week, c.count, 0));
      assert captured[..i + 1][..i] == captured[..i] && captured[..i + 1][i] == c;
    }
    assert captured[..|captured|] == captured;
    for i := 0 to |promoted|
      invariant weeks == Promoted(Captured(captured), promoted[..i])
    {
      var pr := promoted[i];
      var w := WeekOf(weeks, pr.week);
      w := w.(promoted := pr.count);
      weeks := SetEntry(weeks, InWeek(), w);
      assert promoted[..i + 1][..i] == promoted[..i] && promoted[..i + 1][i] == pr;
    }
    assert promoted[..|promoted|] == promoted;
    weekly := Sort(weeks, WeekOrder(coll));
  }

  // ---- a full outer join --------------------------------------------------------------

  /** The count a series gives a week: the last one, if there are several. */
  function CountIn(series: seq<Count>, week: string): Option<nat> {
    if series == [] then None
    else
      var last := series[|series| - 1];
      if last.week == week then Some(last.count) else CountIn(series[..|series| - 1], week)
  }

  function OrZero(n: Option<nat>): nat {
    if n.Some? then n.value else 0
  }

  ghost predicate DistinctWeeks(weeks: seq<WeekPoint>) {
    DistinctBy(weeks, InWeek())
  }

  lemma WeekSet(weeks: seq<WeekPoint>, p: WeekPoint, week: string)
    ensures WeekOf(SetEntry(weeks, InWeek(), p), week) == if week == p.week then p else WeekOf(weeks, week)
    ensures HasWeek(SetEntry(weeks, InWeek(), p), week) <==> week == p.week || HasWeek(weeks, week)
  {
    hide Place;
    var at := Place(weeks, InWeek(), p.week);
    var r := SetEntry(weeks, InWeek(), p);
    assert r[at] == p;
    var i, j := Place(weeks, InWeek(), week), Place(r, InWeek(), week);
    assert forall k :: 0 <= k < |weeks| && k != at ==> r[k] == weeks[k];
    if week == p.week {
      assert j == at;
    } else if i < |weeks| {
      assert r[i] == weeks[i];
      assert j == i;
    }
  }

  lemma {:induction false} CapturedWeeks(series: seq<Count>, week: string)
    ensures DistinctWeeks(Captured(series))
    ensures WeekOf(Captured(series), week) == WeekPoint(week, OrZero(CountIn(series, week)), 0)
    ensures HasWeek(Captured(series), week) <==> CountIn(series, week).Some?
  {
    if series == [] {
    } else {
      hide DistinctWeeks, SetEntry, WeekOf, HasWeek;
      var k := |series| - 1;
      var p := WeekPoint(series[k].week, series[k].count, 0);
      CapturedWeeks(series[..k], week);
      WeekSet(Captured(series[..k]), p, week);
      SetDistinct(Captured(series[..k]), InWeek(), p);
    }
  }

  lemma {:induction false} JoinedWeeks(captured: seq<Count>, promoted: seq<Count>, week: string)
    ensures DistinctWeeks(Joined(captured, promoted))
    ensures WeekOf(Joined(captured, promoted), week) ==
            WeekPoint(week, OrZero(CountIn(captured, week)), OrZero(CountIn(promoted, week)))
    ensures HasWeek(Joined(captured, promoted), week) <==>
            CountIn(captured, week).Some? || CountIn(promoted, week).Some?
    decreases |promoted|
  {
    CapturedWeeks(captured, week);
    if promoted == [] {
    } else {
      hide DistinctWeeks, SetEntry, WeekOf, HasWeek, Captured;
      var k := |promoted| - 1;
      var before := Joined(captured, promoted[..k]);
      JoinedWeeks(captured, promoted[..k], week);
      JoinedWeeks(captured, promoted[..k], promoted[k].week);
      var p := WeekOf(before, promoted[k].week).(promoted := promoted[k].count);
      WeekSet(before, p, week);
      SetDistinct(before, InWeek(), p);
    }
  }

  /** The merged series is a full outer join: weeks strictly ascending, exactly those of either
      series, each with the counts of both, 0 where a series has none. */
  lemma MergeIsOuterJoin(captured: seq<Count>, promoted: seq<Count>, coll: Collation)
    requires coll.Lawful()
    ensures var w := WeeklySeries(captured, promoted, coll);
      && (forall i, j :: 0 <= i < j < |w| ==> coll.compare(w[i].week, w[j].week) < 0)
      && (forall week :: (exists k :: 0 <= k < |w| && w[k].week == week) <==>
            CountIn(captured, week).Some? || CountIn(promoted, week).Some?)
      && (forall k :: 0 <= k < |w| ==>
            && w[k].captured == OrZero(CountIn(captured, w[k].week))
            && w[k].promoted == OrZero(CountIn(promoted, w[k].week)))
  {
    hide Sort, Joined, WeekOf, HasWeek, CountIn, Orders, Sorted;
    var weeks := Joined(captured, promoted);
    var w := WeeklySeries(captured, promoted, coll);
    JoinedWeeks(captured, promoted, "");
    Members(w, weeks);
    SortDistinct(weeks, WeekOrder(coll), InWeek());
    WeeksOrder(coll, weeks);
    SortSorts(weeks, WeekOrder(coll));
    StrictWeeks(w, coll);
    forall k | 0 <= k < |w|
      ensures w[k].captured == OrZero(CountIn(captured, w[k].week))
      ensures w[k].promoted == OrZero(CountIn(promoted, w[k].week))
    {
      assert w[k] in weeks;
      JoinedWeeks(captured, promoted, w[k].week);
      WeekOfMember(weeks, w[k]);
    }
    forall week
      ensures (exists k :: 0 <= k < |w| && w[k].week == week) <==>
        CountIn(captured, week).Some? || CountIn(promoted, week).Some?
    {
      JoinedWeeks(captured, promoted, week);
      WeekPresent(weeks, w, week);
    }
  }

  lemma WeekOfMember(weeks: seq<WeekPoint>, p: WeekPoint)
    requires DistinctWeeks(weeks) && p in weeks
    ensures WeekOf(weeks, p.week) == p && HasWeek(weeks, p.week)
  {
    hide Place;
    var k :| 0 <= k < |weeks| && weeks[k] == p;
    var at := Place(weeks, InWeek(), p.week);
    assert InWeek()(weeks[k]) == p.week;
    assert at < |weeks| ==> InWeek()(weeks[at]) == p.week;
    assert at == k;
  }

  lemma WeekPresent(weeks: seq<WeekPoint>, w: seq<WeekPoint>, week: string)
    requires forall p :: p in w <==> p in weeks
    ensures (exists k :: 0 <= k < |w| && w[k].week == week) <==> HasWeek(weeks, week)
  {
    hide Place;
    var at := Place(weeks, InWeek(), week);
    if at < |weeks| {
      assert weeks[at] in w;
    }
    if k :| 0 <= k < |w| && w[k].week == week {
      assert w[k] in weeks;
    }
  }

  lemma WeeksOrder(coll: Collation, weeks: seq<WeekPoint>)
    requires coll.Lawful()
    ensures Orders(WeekOrder(coll), weeks)
  {
    forall x: WeekPoint, y: WeekPoint
      ensures WeekOrder(coll)(x, y) <= 0 || WeekOrder(coll)(y, x) <= 0
    {
      assert coll.compare(x.week, y.week) <= 0 || coll.compare(y.week, x.week) <= 0;
    }
    forall x: WeekPoint, y: WeekPoint, z: WeekPoint | WeekOrder(coll)(x, y) <= 0 && WeekOrder(coll)(y, z) <= 0
      ensures WeekOrder(coll)(x, z) <= 0
    {
      CompareTransitive(coll, x.week, y.week, z.week);
    }
  }

  lemma StrictWeeks(w: seq<WeekPoint>, coll: Collation)
    requires coll.Lawful() && Sorted(w, WeekOrder(coll)) && DistinctBy(w, InWeek())
    ensures forall i, j :: 0 <= i < j < |w| ==> coll.compare(w[i].week, w[j].week) < 0
  {
    forall i, j | 0 <= i < j < |w|
      ensures coll.compare(w[i].week, w[j].week) < 0
    {
      assert WeekOrder(coll)(w[i], w[j]) <= 0;
      assert InWeek()(w[i]) != InWeek()(w[j]);
      assert coll.compare(w[i].week, w[j].week) != 0;
    }
  }

  // ---- conservation -------------------------------------------------------------------

  ghost predicate OncePerWeek(series: seq<Count>) {
    forall i, j :: 0 <= i < j < |series| ==> series[i].week != series[j].week
  }

  function CapturedIn(): WeekPoint -> nat { (p: WeekPoint) => p.captured }
  function PromotedIn(): WeekPoint -> nat { (p: WeekPoint) => p.promoted }
  function CountOf(): Count -> nat { (c: Count) => c.count }

  lemma SumWeek(weeks: seq<WeekPoint>, p: WeekPoint, f: WeekPoint -> nat)
    requires f(WeekPoint(p.week, 0, 0)) == 0
    ensures SumOf(SetEntry(weeks, InWeek(), p), f) + f(WeekOf(weeks, p.week)) == SumOf(weeks, f) + f(p)
  {
    hide Place, SetEntry, SumOf;
    SumSet(weeks, InWeek(), p, f);
  }

  lemma {:induction false} NotYetCounted(series: seq<Count>, k: nat)
    requires OncePerWeek(series) && k < |series|
    ensures CountIn(series[..k], series[k].week).None?
  {
    NoCount(series[..k], series[k].week);
  }

  lemma {:induction false} NoCount(series: seq<Count>, week: string)
    requires forall i :: 0 <= i < |series| ==> series[i].week != week
    ensures CountIn(series, week).None?
  {
    if series == [] {
    } else {
      NoCount(series[..|series| - 1], week);
    }
  }

  lemma {:induction false} CapturedSum(series: seq<Count>)
    requires OncePerWeek(series)
    ensures SumOf(Captured(series), CapturedIn()) == SumOf(series, CountOf())
    ensures SumOf(Captured(series), PromotedIn()) == 0
  {
    if series == [] {
    } else {
      hide SetEntry, WeekOf, HasWeek, CountIn, SumOf;
      var k := |series| - 1;
      assert series == series[..k] + [series[k]];
      var p := WeekPoint(series[k].week, series[k].count, 0);
      CapturedSum(series[..k]);
      NotYetCounted(series, k);
      CapturedWeeks(series[..k], p.week);
      SumWeek(Captured(series[..k]), p, CapturedIn());
      SumWeek(Captured(series[..k]), p, PromotedIn());
      SumMore(series[..k], series[k], CountOf());
    }
  }

  lemma {:induction false} JoinedSum(captured: seq<Count>, promoted: seq<Count>)
    requires OncePerWeek(captured) && OncePerWeek(promoted)
    ensures SumOf(Joined(captured, promoted), CapturedIn()) == SumOf(captured, CountOf())
    ensures SumOf(Joined(captured, promoted), PromotedIn()) == SumOf(promoted, CountOf())
    decreases |promoted|
  {
    CapturedSum(captured);
    if promoted == [] {
    } else {
      hide SetEntry, WeekOf, HasWeek, CountIn, SumOf, Captured;
      var k := |promoted| - 1;
      assert promoted == promoted[..k] + [promoted[k]];
      var before := Joined(captured, promoted[..k]);
      JoinedSum(captured, promoted[..k]);
      NotYetCounted(promoted, k);
      JoinedWeeks(captured, promoted[..k], promoted[k].week);
      var p := WeekOf(before, promoted[k].week).(promoted := promoted[k].count);
      SumWeek(before, p, CapturedIn());
      SumWeek(before, p, PromotedIn());
      SumMore(promoted[..k], promoted[k], CountOf());
    }
  }

  /** When no series repeats a week, both column sums are those of the series. */
  lemma MergeConserves(captured: seq<Count>, promoted: seq<Count>, coll: Collation)
    requires OncePerWeek(captured) && OncePerWeek(promoted)
    ensures var w := WeeklySeries(captured, promoted, coll);
      SumOf(w, CapturedIn()) == SumOf(captured, CountOf()) && SumOf(w, PromotedIn()) == SumOf(promoted, CountOf())
  {
    hide SumOf, Sort, Joined;
    JoinedSum(captured, promoted);
    SumSort(Joined(captured, promoted), WeekOrder(coll), CapturedIn());
    SumSort(Joined(captured, promoted), WeekOrder(coll), PromotedIn());
  }
}
