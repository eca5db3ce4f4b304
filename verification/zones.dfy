/**
  Per-day zone building (`cluster_zones`): for every day of a date range,
  collect the extremum prices of the trailing look-back window, skip the day
  if there are fewer than 25, cluster them, keep the centres touched often
  enough, add the window's lowest and highest price, sort, and store the list
  under the next day, or under Sunday and Monday when the day is a Friday.
 */
module Zones {
  import opened Wrappers
  import opened Bars
  import opened PriceLists
  import opened Rounding

  /** How a cluster's representative price is taken from its members. */
  datatype Centering = Mean | Median

  /**
    The clustering step (`cluster_sk`): given the window's prices, the number
    of clusters and the centering rule, one representative price per cluster.
    Its internals are outside this model; any function may be supplied.
   */
  type Clusterer = (seq<real>, int, Centering) -> seq<real>

  /** The tuning knobs of `cluster_zones`, with the clustering options made explicit. */
  datatype ZoneParams = ZoneParams(
    period: int,
    zoneWidth: real,
    minTouches: int,
    nClusters: int,
    centering: Centering)

  /** A day whose window holds fewer extrema than this is skipped. */
  const MinWindowExtrema: nat := 25

  /** The zone lists computed so far, by the day they apply to. */
  type Calendar = map<int, seq<real>>

  /** Bar `e` lies in the look-back window of `day`: from `period` days before its midnight up to that midnight. */
  predicate InWindow(e: Bar, day: int, period: int) {
    DayStart(day - period) <= e.time <= DayStart(day)
  }

  /** The prices of the extrema in the window of `day`, in their original order. */
  function WindowValues(extrema: seq<Bar>, day: int, period: int): (r: seq<real>)
    ensures |r| <= |extrema|
    ensures forall i :: 0 <= i < |extrema| && InWindow(extrema[i], day, period) ==> extrema[i].close in r
    ensures forall v :: v in r ==> exists i :: 0 <= i < |extrema| && InWindow(extrema[i], day, period) && extrema[i].close == v
    decreases |extrema|
  {
    if |extrema| == 0 then []
    else
      var init := extrema[..|extrema| - 1];
      var e := extrema[|extrema| - 1];
      WindowValues(init, day, period) + (if InWindow(e, day, period) then [e.close] else [])
  }

  /** The positions of the extrema in the window of `day`. */
  ghost function WindowIndices(extrema: seq<Bar>, day: int, period: int): set<int> {
    set i | 0 <= i < |extrema| && InWindow(extrema[i], day, period)
  }

  /** Extending the extrema by one bar adds its position exactly when it lies in the window. */
  lemma WindowIndicesSnoc(extrema: seq<Bar>, day: int, period: int)
    requires |extrema| > 0
    ensures var n := |extrema| - 1;
      && n !in WindowIndices(extrema[..n], day, period)
      && WindowIndices(extrema, day, period)
         == WindowIndices(extrema[..n], day, period) + (if InWindow(extrema[n], day, period) then {n} else {})
  {
    var n := |extrema| - 1;
    var init := extrema[..n];
    forall i
      ensures i in WindowIndices(extrema, day, period)
          <==> i in WindowIndices(init, day, period) + (if InWindow(extrema[n], day, period) then {n} else {})
    {
      if 0 <= i < n {
        assert init[i] == extrema[i];
      }
    }
  }

  /** One price is collected per extremum in the window: equal prices are not merged. */
  lemma {:induction false} WindowValuesCount(extrema: seq<Bar>, day: int, period: int)
    ensures |WindowValues(extrema, day, period)| == |WindowIndices(extrema, day, period)|
    decreases |extrema|
  {
    if |extrema| == 0 {
      assert WindowIndices(extrema, day, period) == {};
    } else {
      var n := |extrema| - 1;
      WindowValuesCount(extrema[..n], day, period);
      WindowIndicesSnoc(extrema, day, period);
    }
  }

  /** The positions of the extrema in the window of `day`, in increasing order. */
  function WindowPositions(extrema: seq<Bar>, day: int, period: int): (ix: seq<nat>)
    ensures forall k :: 0 <= k < |ix| ==> ix[k] < |extrema| && InWindow(extrema[ix[k]], day, period)
    ensures forall k, l :: 0 <= k < l < |ix| ==> ix[k] < ix[l]
    ensures forall i :: 0 <= i < |extrema| && InWindow(extrema[i], day, period) ==> i in ix
    decreases |extrema|
  {
    if |extrema| == 0 then []
    else
      var n := |extrema| - 1;
      var init := extrema[..n];
      assert forall i :: 0 <= i < n ==> init[i] == extrema[i];
      WindowPositions(init, day, period) + (if InWindow(extrema[n], day, period) then [n] else [])
  }

  /** The closes of the extrema at positions `ix`, in that order. */
  function ClosesAt(extrema: seq<Bar>, ix: seq<nat>): (r: seq<real>)
    requires forall k :: 0 <= k < |ix| ==> ix[k] < |extrema|
    ensures |r| == |ix|
    ensures forall k :: 0 <= k < |ix| ==> r[k] == extrema[ix[k]].close
  {
    seq(|ix|, k requires 0 <= k < |ix| => extrema[ix[k]].close)
  }

  /** Reading positions below the last bar, or adding the last bar's position, behaves as expected. */
  lemma ClosesAtSnoc(extrema: seq<Bar>, ix: seq<nat>)
    requires |extrema| > 0
    requires forall k :: 0 <= k < |ix| ==> ix[k] < |extrema| - 1
    ensures var n := |extrema| - 1;
      && ClosesAt(extrema, ix) == ClosesAt(extrema[..n], ix)
      && ClosesAt(extrema, ix + [n]) == ClosesAt(extrema, ix) + [extrema[n].close]
  {
    var n := |extrema| - 1;
    assert ClosesAt(extrema, ix) == ClosesAt(extrema[..n], ix);
    assert ClosesAt(extrema, ix + [n]) == ClosesAt(extrema, ix) + [extrema[n].close];
  }

  /** The collected prices are the closes of the extrema in the window, one each, in the extrema's order. */
  lemma {:induction false} WindowValuesInOrder(extrema: seq<Bar>, day: int, period: int)
    ensures WindowValues(extrema, day, period) == ClosesAt(extrema, WindowPositions(extrema, day, period))
    decreases |extrema|
  {
    if |extrema| > 0 {
      var n := |extrema| - 1;
      var init := extrema[..n];
      WindowValuesInOrder(init, day, period);
      ClosesAtSnoc(extrema, WindowPositions(init, day, period));
    }
  }

  /** The distance of `x` from zero. */
  function Abs(x: real): real {
    if x < 0.0 then -x else x
  }

  /** Price `v` touches the zone around `centre`: it lies strictly within half a zone width. */
  predicate Touches(centre: real, v: real, zoneWidth: real) {
    Abs(centre - v) < zoneWidth / 2.0
  }

  /** How many of `values` touch the zone around `centre`. */
  function TouchCount(centre: real, values: seq<real>, zoneWidth: real): (n: nat)
    ensures n <= |values|
    ensures n == 0 <==> forall i :: 0 <= i < |values| ==> !Touches(centre, values[i], zoneWidth)
    ensures n == |values| <==> forall i :: 0 <= i < |values| ==> Touches(centre, values[i], zoneWidth)
    decreases |values|
  {
    if |values| == 0 then 0
    else
      var init := values[..|values| - 1];
      TouchCount(centre, init, zoneWidth)
        + (if Touches(centre, values[|values| - 1], zoneWidth) then 1 else 0)
  }

  /** The positions of the values that touch the zone around `centre`. */
  ghost function TouchingIndices(centre: real, values: seq<real>, zoneWidth: real): set<int> {
    set i | 0 <= i < |values| && Touches(centre, values[i], zoneWidth)
  }

  /** Extending the values by one adds its position exactly when it touches the zone. */
  lemma TouchingIndicesSnoc(centre: real, values: seq<real>, zoneWidth: real)
    requires |values| > 0
    ensures var n := |values| - 1;
      && n !in TouchingIndices(centre, values[..n], zoneWidth)
      && TouchingIndices(centre, values, zoneWidth)
         == TouchingIndices(centre, values[..n], zoneWidth) + (if Touches(centre, values[n], zoneWidth) then {n} else {})
  {
    var n := |values| - 1;
    var init := values[..n];
    forall i
      ensures i in TouchingIndices(centre, values, zoneWidth)
          <==> i in TouchingIndices(centre, init, zoneWidth) + (if Touches(centre, values[n], zoneWidth) then {n} else {})
    {
      if 0 <= i < n {
        assert init[i] == values[i];
      }
    }
  }

  /** The touch count is the number of values, duplicates included, that touch the zone. */
  lemma {:induction false} TouchCountIsTouching(centre: real, values: seq<real>, zoneWidth: real)
    ensures TouchCount(centre, values, zoneWidth) == |TouchingIndices(centre, values, zoneWidth)|
    decreases |values|
  {
    if |values| == 0 {
      assert TouchingIndices(centre, values, zoneWidth) == {};
    } else {
      var n := |values| - 1;
      TouchCountIsTouching(centre, values[..n], zoneWidth);
      TouchingIndicesSnoc(centre, values, zoneWidth);
    }
  }

  /** Centre `c` is touched by at least `minTouches` of `values`. */
  predicate Kept(c: real, values: seq<real>, zoneWidth: real, minTouches: int) {
    TouchCount(c, values, zoneWidth) >= minTouches
  }

  /** The rounded centres touched by at least `minTouches` of `values`, in centre order. */
  function KeptZones(centres: seq<real>, values: seq<real>, zoneWidth: real, minTouches: int): (r: seq<real>)
    ensures |r| <= |centres|
    ensures forall i :: 0 <= i < |centres| && Kept(centres[i], values, zoneWidth, minTouches) ==>
      Round4(centres[i]) in r
    ensures forall z :: z in r ==>
      exists i :: 0 <= i < |centres| && Kept(centres[i], values, zoneWidth, minTouches) && z == Round4(centres[i])
    decreases |centres|
  {
    if |centres| == 0 then []
    else
      var init := centres[..|centres| - 1];
      var c := centres[|centres| - 1];
      KeptZones(init, values, zoneWidth, minTouches)
        + (if Kept(c, values, zoneWidth, minTouches) then [Round4(c)] else [])
  }

  /** The positions of the centres that are kept. */
  ghost function KeptIndices(centres: seq<real>, values: seq<real>, zoneWidth: real, minTouches: int): set<int> {
    set i | 0 <= i < |centres| && Kept(centres[i], values, zoneWidth, minTouches)
  }

  /** Extending the centres by one adds its position exactly when it is kept. */
  lemma KeptIndicesSnoc(centres: seq<real>, values: seq<real>, zoneWidth: real, minTouches: int)
    requires |centres| > 0
    ensures var n := |centres| - 1;
      && n !in KeptIndices(centres[..n], values, zoneWidth, minTouches)
      && KeptIndices(centres, values, zoneWidth, minTouches)
         == KeptIndices(centres[..n], values, zoneWidth, minTouches)
            + (if Kept(centres[n], values, zoneWidth, minTouches) then {n} else {})
  {
    var n := |centres| - 1;
    var init := centres[..n];
    forall i
      ensures i in KeptIndices(centres, values, zoneWidth, minTouches)
          <==> i in KeptIndices(init, values, zoneWidth, minTouches)
                    + (if Kept(centres[n], values, zoneWidth, minTouches) then {n} else {})
    {
      if 0 <= i < n {
        assert init[i] == centres[i];
      }
    }
  }

  /** One rounded price is kept per kept centre: equal roundings are not merged. */
  lemma {:induction false} KeptZonesCount(centres: seq<real>, values: seq<real>, zoneWidth: real, minTouches: int)
    ensures |KeptZones(centres, values, zoneWidth, minTouches)| == |KeptIndices(centres, values, zoneWidth, minTouches)|
    decreases |centres|
  {
    if |centres| == 0 {
      assert KeptIndices(centres, values, zoneWidth, minTouches) == {};
    } else {
      var n := |centres| - 1;
      KeptZonesCount(centres[..n], values, zoneWidth, minTouches);
      KeptIndicesSnoc(centres, values, zoneWidth, minTouches);
    }
  }

  /** The positions of the kept centres, in increasing order. */
  function KeptPositions(centres: seq<real>, values: seq<real>, zoneWidth: real, minTouches: int): (ix: seq<nat>)
    ensures forall k :: 0 <= k < |ix| ==> ix[k] < |centres| && Kept(centres[ix[k]], values, zoneWidth, minTouches)
    ensures forall k, l :: 0 <= k < l < |ix| ==> ix[k] < ix[l]
    ensures forall i :: 0 <= i < |centres| && Kept(centres[i], values, zoneWidth, minTouches) ==> i in ix
    decreases |centres|
  {
    if |centres| == 0 then []
    else
      var n := |centres| - 1;
      var init := centres[..n];
      assert forall i :: 0 <= i < n ==> init[i] == centres[i];
      KeptPositions(init, values, zoneWidth, minTouches)
        + (if Kept(centres[n], values, zoneWidth, minTouches) then [n] else [])
  }

  /** The roundings of the centres at positions `ix`, in that order. */
  function RoundedAt(centres: seq<real>, ix: seq<nat>): (r: seq<real>)
    requires forall k :: 0 <= k < |ix| ==> ix[k] < |centres|
    ensures |r| == |ix|
    ensures forall k :: 0 <= k < |ix| ==> r[k] == Round4(centres[ix[k]])
  {
    seq(|ix|, k requires 0 <= k < |ix| => Round4(centres[ix[k]]))
  }

  /** Reading positions below the last centre, or adding the last centre's position, behaves as expected. */
  lemma RoundedAtSnoc(centres: seq<real>, ix: seq<nat>)
    requires |centres| > 0
    requires forall k :: 0 <= k < |ix| ==> ix[k] < |centres| - 1
    ensures var n := |centres| - 1;
      && RoundedAt(centres, ix) == RoundedAt(centres[..n], ix)
      && RoundedAt(centres, ix + [n]) == RoundedAt(centres, ix) + [Round4(centres[n])]
  {
    var n := |centres| - 1;
    assert RoundedAt(centres, ix) == RoundedAt(centres[..n], ix);
    assert RoundedAt(centres, ix + [n]) == RoundedAt(centres, ix) + [Round4(centres[n])];
  }

  /** The kept list is the rounding of each kept centre, one entry per centre, in centre order. */
  lemma {:induction false} KeptZonesInOrder(centres: seq<real>, values: seq<real>, zoneWidth: real, minTouches: int)
    ensures KeptZones(centres, values, zoneWidth, minTouches)
         == RoundedAt(centres, KeptPositions(centres, values, zoneWidth, minTouches))
    decreases |centres|
  {
    if |centres| > 0 {
      var n := |centres| - 1;
      var init := centres[..n];
      KeptZonesInOrder(init, values, zoneWidth, minTouches);
      RoundedAtSnoc(centres, KeptPositions(init, values, zoneWidth, minTouches));
    }
  }

  /**
    The zone list computed on `day`, or `None` when its window holds fewer
    than `MinWindowExtrema` extrema.
   */
  function DayZones(extrema: seq<Bar>, day: int, p: ZoneParams, cluster: Clusterer): (r: Option<seq<real>>)
    ensures r.Some? <==> |WindowValues(extrema, day, p.period)| >= MinWindowExtrema
    ensures r.Some? ==> Sorted(r.value) && |r.value| >= 2
  {
    var values := WindowValues(extrema, day, p.period);
    if |values| < MinWindowExtrema then None
    else
      var centres := cluster(values, p.nClusters, p.centering);
      var kept := KeptZones(centres, values, p.zoneWidth, p.minTouches);
      Some(SortAscending(kept + [SeqMin(values), SeqMax(values)]))
  }

  /** A day yields a zone list exactly when at least `MinWindowExtrema` extrema lie in its window. */
  lemma DayZonesWhenEnough(extrema: seq<Bar>, day: int, p: ZoneParams, cluster: Clusterer)
    ensures DayZones(extrema, day, p, cluster).Some? <==> |WindowIndices(extrema, day, p.period)| >= MinWindowExtrema
  {
    WindowValuesCount(extrema, day, p.period);
  }

  /**
    What a zone list holds: the lowest and highest price of `values`, and
    otherwise exactly the rounded centres that are kept.
   */
  lemma ZoneListContents(centres: seq<real>, values: seq<real>, zoneWidth: real, minTouches: int)
    requires |values| > 0
    ensures var z := SortAscending(KeptZones(centres, values, zoneWidth, minTouches) + [SeqMin(values), SeqMax(values)]);
      && multiset(z) == multiset(KeptZones(centres, values, zoneWidth, minTouches)) + multiset{SeqMin(values), SeqMax(values)}
      && SeqMin(values) in z && SeqMax(values) in z
      && (forall i :: 0 <= i < |centres| && Kept(centres[i], values, zoneWidth, minTouches) ==> Round4(centres[i]) in z)
      && (forall x :: x in z ==>
            || x == SeqMin(values) || x == SeqMax(values)
            || exists i :: 0 <= i < |centres| && Kept(centres[i], values, zoneWidth, minTouches) && x == Round4(centres[i]))
  {
    var kept := KeptZones(centres, values, zoneWidth, minTouches);
    var all := kept + [SeqMin(values), SeqMax(values)];
    SortAscendingMembers(all);
    forall x | x in all
      ensures x == SeqMin(values) || x == SeqMax(values) || x in kept
    {
    }
  }

  /**
    What a computed zone list holds: it is sorted, it contains the window's
    lowest and highest price, and every other entry is the rounded value of a
    cluster centre that at least `minTouches` window prices touch (counted
    against the unrounded centre); every such centre is present. Entries are
    counted with multiplicity: one per kept centre, plus the lowest and the
    highest price, even when some of them are equal.
   */
  lemma DayZonesContents(extrema: seq<Bar>, day: int, p: ZoneParams, cluster: Clusterer)
    requires DayZones(extrema, day, p, cluster).Some?
    ensures var values := WindowValues(extrema, day, p.period);
      var centres := cluster(values, p.nClusters, p.centering);
      var z := DayZones(extrema, day, p, cluster).value;
      && |values| >= MinWindowExtrema
      && Sorted(z)
      && multiset(z) == multiset(KeptZones(centres, values, p.zoneWidth, p.minTouches)) + multiset{SeqMin(values), SeqMax(values)}
      && SeqMin(values) in z && SeqMax(values) in z
      && (forall i :: 0 <= i < |centres| && Kept(centres[i], values, p.zoneWidth, p.minTouches) ==> Round4(centres[i]) in z)
      && (forall x :: x in z ==>
            || x == SeqMin(values) || x == SeqMax(values)
            || exists i :: 0 <= i < |centres| && Kept(centres[i], values, p.zoneWidth, p.minTouches) && x == Round4(centres[i]))
  {
    var values := WindowValues(extrema, day, p.period);
    var centres := cluster(values, p.nClusters, p.centering);
    ZoneListContents(centres, values, p.zoneWidth, p.minTouches);
  }

  /** The days a zone list computed on `day` is stored under. */
  function Targets(day: int): set<int> {
    if Weekday(day) == Friday then {day + 2, day + 3} else {day + 1}
  }

  /** What each day computes, as one function of the day. */
  type DailyZones = int -> Option<seq<real>>

  /** The per-day results of `cluster_zones` for fixed extrema and parameters. */
  function ZonesOn(extrema: seq<Bar>, p: ZoneParams, cluster: Clusterer): DailyZones {
    d => DayZones(extrema, d, p, cluster)
  }

  /** Day `d` computes a zone list and stores it under key `k`. */
  predicate Writes(zonesOf: DailyZones, d: int, k: int) {
    k in Targets(d) && zonesOf(d).Some?
  }

  /**
    The last day of `first..last` that stores a list under key `k`, if any:
    later days overwrite earlier ones.
   */
  function LastWriter(zonesOf: DailyZones, first: int, last: int, k: int): (r: Option<int>)
    ensures r.Some? ==> first <= r.value <= last && Writes(zonesOf, r.value, k)
    ensures r.Some? ==> forall d :: r.value < d <= last ==> !Writes(zonesOf, d, k)
    ensures r.None? ==> forall d :: first <= d <= last ==> !Writes(zonesOf, d, k)
    decreases last - first
  {
    if last < first then None
    else if Writes(zonesOf, last, k) then Some(last)
    else LastWriter(zonesOf, first, last - 1, k)
  }

  /**
    `cal` is what `cluster_zones` builds from the days `first..last`: a key
    is present exactly when some day of the range stored a list under it, and
    then it holds the list of the last such day.
   */
  ghost predicate IsCalendar(cal: Calendar, zonesOf: DailyZones, first: int, last: int) {
    forall k ::
      && (k in cal <==> LastWriter(zonesOf, first, last, k).Some?)
      && (k in cal ==> cal[k] == zonesOf(LastWriter(zonesOf, first, last, k).value).value)
  }

  /** Stores the list computed on `day`, if any, under each of its target days. */
  function Record(cal: Calendar, day: int, zones: Option<seq<real>>): (r: Calendar)
    ensures forall k :: k in r <==> k in cal || (zones.Some? && k in Targets(day))
    ensures forall k :: k in r ==> r[k] == if zones.Some? && k in Targets(day) then zones.value else cal[k]
  {
    if zones.None? then cal
    else if Weekday(day) == Friday then cal[day + 2 := zones.value][day + 3 := zones.value]
    else cal[day + 1 := zones.value]
  }

  /** An empty range of days stores nothing. */
  lemma {:induction false} EmptyCalendar(zonesOf: DailyZones, first: int, last: int)
    requires last < first
    ensures IsCalendar(map[], zonesOf, first, last)
  {
    forall k
      ensures LastWriter(zonesOf, first, last, k).None?
    {
    }
  }

  /** Processing one more day keeps the calendar in step with the range of processed days. */
  lemma {:induction false} RecordExtends(cal: Calendar, zonesOf: DailyZones, first: int, day: int)
    requires first <= day
    requires IsCalendar(cal, zonesOf, first, day - 1)
    ensures IsCalendar(Record(cal, day, zonesOf(day)), zonesOf, first, day)
  {
    var next := Record(cal, day, zonesOf(day));
    forall k
      ensures k in next <==> LastWriter(zonesOf, first, day, k).Some?
      ensures k in next ==> next[k] == zonesOf(LastWriter(zonesOf, first, day, k).value).value
    {
      assert LastWriter(zonesOf, first, day, k) ==
        if Writes(zonesOf, day, k) then Some(day) else LastWriter(zonesOf, first, day - 1, k);
      if Writes(zonesOf, day, k) {
        assert k in next && next[k] == zonesOf(day).value;
      } else {
        assert k in next <==> k in cal;
        assert k in cal ==> next[k] == cal[k];
      }
    }
  }

  /** `cluster_zones`: one pass over the days `fromDay..toDay`, both included. */
  method ClusterZones(extrema: seq<Bar>, fromDay: int, toDay: int, p: ZoneParams, cluster: Clusterer)
    returns (cal: Calendar)
    ensures IsCalendar(cal, ZonesOn(extrema, p, cluster), fromDay, toDay)
  {
    ghost var zonesOf := ZonesOn(extrema, p, cluster);
    cal := map[];
    if toDay < fromDay {
      EmptyCalendar(zonesOf, fromDay, toDay);
      return;
    }
    EmptyCalendar(zonesOf, fromDay, fromDay - 1);
    var day := fromDay - 1;
    while day < toDay
      invariant fromDay - 1 <= day <= toDay
      invariant IsCalendar(cal, zonesOf, fromDay, day)
      decreases toDay - day
    {
      day := day + 1;
      var zones := DayZones(extrema, day, p, cluster);
      assert zones == zonesOf(day);
      RecordExtends(cal, zonesOf, fromDay, day);
      ghost var next := Record(cal, day, zones);
      if zones.Some? {
        if Weekday(day) == Friday {
          cal := cal[day + 2 := zones.value][day + 3 := zones.value];
        } else {
          cal := cal[day + 1 := zones.value];
        }
      }
      assert cal == next;
    }
  }

  /** A calendar holds exactly one list per key: the inputs determine it. */
  lemma CalendarUnique(c1: Calendar, c2: Calendar, zonesOf: DailyZones, first: int, last: int)
    requires IsCalendar(c1, zonesOf, first, last) && IsCalendar(c2, zonesOf, first, last)
    ensures c1 == c2
  {
    forall k
      ensures k in c1 <==> k in c2
      ensures k in c1 ==> c1[k] == c2[k]
    {
    }
  }

  /**
    Every stored list comes from a day of the range shortly before its key,
    and a day's list applies only to later days, never to the day itself.
   */
  lemma {:induction false} CalendarEntryOrigin(cal: Calendar, zonesOf: DailyZones, first: int, last: int, k: int)
    requires IsCalendar(cal, zonesOf, first, last)
    requires k in cal
    ensures exists d :: first <= d <= last && d < k <= d + 3 && zonesOf(d) == Some(cal[k])
  {
    var d := LastWriter(zonesOf, first, last, k).value;
    assert zonesOf(d) == Some(cal[k]);
  }

  /** Every list `cluster_zones` stores is sorted and holds at least the window's low and high. */
  lemma {:induction false} CalendarEntriesSorted(cal: Calendar, extrema: seq<Bar>, p: ZoneParams, cluster: Clusterer, first: int, last: int, k: int)
    requires IsCalendar(cal, ZonesOn(extrema, p, cluster), first, last)
    requires k in cal
    ensures Sorted(cal[k]) && |cal[k]| >= 2
  {
    var d := LastWriter(ZonesOn(extrema, p, cluster), first, last, k).value;
    assert Some(cal[k]) == DayZones(extrema, d, p, cluster);
  }

  /** The list computed on a day other than Friday is the one stored for the next day. */
  lemma {:induction false} WeekdayStoresNextDay(cal: Calendar, zonesOf: DailyZones, first: int, last: int, d: int)
    requires IsCalendar(cal, zonesOf, first, last)
    requires first <= d <= last && Weekday(d) != Friday && zonesOf(d).Some?
    ensures d + 1 in cal && cal[d + 1] == zonesOf(d).value
  {
    assert Writes(zonesOf, d, d + 1);
    var w := LastWriter(zonesOf, first, last, d + 1).value;
    assert d <= w;
  }

  /** Days storing under key `k` lie at most three days before it. */
  lemma WritesBefore(zonesOf: DailyZones, d: int, k: int)
    requires Writes(zonesOf, d, k)
    ensures d < k <= d + 3
  {
  }

  /**
    The list computed on a Friday is stored for Sunday unless Saturday
    computes one, which then replaces it.
   */
  lemma {:induction false} FridayStoresSunday(cal: Calendar, zonesOf: DailyZones, first: int, last: int, d: int)
    requires IsCalendar(cal, zonesOf, first, last)
    requires first <= d <= last && Weekday(d) == Friday && zonesOf(d).Some?
    ensures d + 2 in cal
    ensures cal[d + 2] == if d + 1 <= last && zonesOf(d + 1).Some? then zonesOf(d + 1).value else zonesOf(d).value
  {
    WeekdayNext(d);
    assert Writes(zonesOf, d, d + 2);
    var w := LastWriter(zonesOf, first, last, d + 2).value;
    WritesBefore(zonesOf, w, d + 2);
    assert d <= w <= d + 1;
    if d + 1 <= last && zonesOf(d + 1).Some? {
      assert Writes(zonesOf, d + 1, d + 2);
    }
  }

  /**
    The list computed on a Friday is stored for Monday unless Sunday
    computes one, which then replaces it; Saturday's list never reaches Monday.
   */
  lemma {:induction false} FridayStoresMonday(cal: Calendar, zonesOf: DailyZones, first: int, last: int, d: int)
    requires IsCalendar(cal, zonesOf, first, last)
    requires first <= d <= last && Weekday(d) == Friday && zonesOf(d).Some?
    ensures d + 3 in cal
    ensures cal[d + 3] == if d + 2 <= last && zonesOf(d + 2).Some? then zonesOf(d + 2).value else zonesOf(d).value
  {
    WeekdayNext(d);
    WeekdayNext(d + 1);
    assert Writes(zonesOf, d, d + 3);
    var w := LastWriter(zonesOf, first, last, d + 3).value;
    WritesBefore(zonesOf, w, d + 3);
    assert d <= w <= d + 2;
    assert w != d + 1;
    if d + 2 <= last && zonesOf(d + 2).Some? {
      assert Writes(zonesOf, d + 2, d + 3);
    }
  }

  /** The first day of `first..last` that stores a list under key `k`: when the key enters the map. */
  function FirstWriter(zonesOf: DailyZones, first: int, last: int, k: int): (r: Option<int>)
    ensures r.Some? ==> first <= r.value <= last && Writes(zonesOf, r.value, k)
    ensures r.Some? ==> forall d :: first <= d < r.value ==> !Writes(zonesOf, d, k)
    ensures r.None? ==> forall d :: first <= d <= last ==> !Writes(zonesOf, d, k)
    decreases last - first
  {
    if last < first then None
    else if Writes(zonesOf, first, k) then Some(first)
    else FirstWriter(zonesOf, first + 1, last, k)
  }

  /**
    Keys enter the calendar in ascending order: a smaller key is first
    stored no later than a larger one, and when both are first stored on the
    same day (a Friday) the smaller, Sunday, is stored first. So iterating
    the map in insertion order visits the days in ascending order.
   */
  lemma {:induction false} InsertionOrderAscending(cal: Calendar, zonesOf: DailyZones, first: int, last: int, k1: int, k2: int)
    requires IsCalendar(cal, zonesOf, first, last)
    requires k1 in cal && k2 in cal && k1 < k2
    ensures FirstWriter(zonesOf, first, last, k1).Some? && FirstWriter(zonesOf, first, last, k2).Some?
    ensures FirstWriter(zonesOf, first, last, k1).value <= FirstWriter(zonesOf, first, last, k2).value
  {
    var l1 := LastWriter(zonesOf, first, last, k1).value;
    var l2 := LastWriter(zonesOf, first, last, k2).value;
    assert Writes(zonesOf, l1, k1) && Writes(zonesOf, l2, k2);
    var w1 := FirstWriter(zonesOf, first, last, k1).value;
    var w2 := FirstWriter(zonesOf, first, last, k2).value;
    WritesBefore(zonesOf, w1, k1);
    WritesBefore(zonesOf, w2, k2);
    if w2 < w1 {
      assert w1 == w2 + 1 && k1 == w2 + 2 && k2 == w2 + 3;
      assert Weekday(w2) == Friday;
      assert Writes(zonesOf, w2, k1);
      assert false;
    }
  }
}
