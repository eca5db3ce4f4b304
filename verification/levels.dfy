/**
  Converting per-day zone lists into price levels (`zones_to_levels`): a
  level is a price together with the day it appeared and the day it
  disappeared, found by walking the days in order and tracking which prices
  are currently present.
 */
module Levels {

  /** One day of the zone calendar: the day it applies to and its zone prices. */
  datatype Entry = Entry(day: int, prices: seq<real>)

  /** A price that was present from day `start` until day `end`. */
  datatype Level = Level(price: real, start: int, end: int)

  /**
    The walk's state: the prices currently present, each with the day it
    appeared, and the levels closed so far.
   */
  datatype Compaction = Compaction(open: map<real, int>, levels: set<Level>)

  /** The distinct prices of a zone list. */
  function PriceSet(prices: seq<real>): set<real> {
    set x | x in prices
  }

  /**
    Processes one entry: prices that newly appear open on its day, prices
    still present keep their opening day, and prices no longer present close
    on its day.
   */
  function Step(c: Compaction, e: Entry): (r: Compaction)
    ensures r.open.Keys == PriceSet(e.prices)
  {
    var now := PriceSet(e.prices);
    Compaction(
      map p | p in now :: if p in c.open then c.open[p] else e.day,
      c.levels + set p | p in c.open && p !in now :: Level(p, c.open[p], e.day))
  }

  /** The state after the first `n` entries. */
  function Compact(entries: seq<Entry>, n: nat): Compaction
    requires n <= |entries|
  {
    if n == 0 then Compaction(map[], {})
    else Step(Compact(entries, n - 1), entries[n - 1])
  }

  /** `zones_to_levels`: closes the prices still present with the last entry's day. */
  function ZonesToLevels(entries: seq<Entry>): (r: set<Level>)
    ensures |entries| == 0 ==> r == {}
  {
    if |entries| == 0 then {}
    else
      var c := Compact(entries, |entries|);
      var last := entries[|entries| - 1].day;
      c.levels + set p | p in c.open :: Level(p, c.open[p], last)
  }

  /**
    The first index of the run of consecutive entries, ending at entry `i`,
    that all contain `p`.
   */
  function RunStart(entries: seq<Entry>, i: nat, p: real): (r: nat)
    requires i < |entries| && p in entries[i].prices
    ensures r <= i
    ensures forall k :: r <= k <= i ==> p in entries[k].prices
    ensures r == 0 || p !in entries[r - 1].prices
    decreases i
  {
    if i == 0 || p !in entries[i - 1].prices then i
    else RunStart(entries, i - 1, p)
  }

  /** A run of `p` ends at entry `m - 1` because entry `m` lacks it. */
  predicate ClosedAt(entries: seq<Entry>, m: nat, p: real) {
    1 <= m < |entries| && p in entries[m - 1].prices && p !in entries[m].prices
  }

  /** The level of the run of `p` that entry `m` ends: from the run's first day to the day of entry `m`. */
  function ClosedLevel(entries: seq<Entry>, m: nat, p: real): Level
    requires ClosedAt(entries, m, p)
  {
    Level(p, entries[RunStart(entries, m - 1, p)].day, entries[m].day)
  }

  /** `l` is the level of a run ended by one of the entries `1..n - 1`. */
  ghost predicate ClosedRun(entries: seq<Entry>, n: nat, l: Level) {
    exists m: nat :: m < n && ClosedAt(entries, m, l.price) && l == ClosedLevel(entries, m, l.price)
  }

  /** The level of the run of `p` still going at the last entry, closed on that entry's day. */
  predicate OpenAtEnd(entries: seq<Entry>, l: Level) {
    && |entries| > 0
    && l.price in entries[|entries| - 1].prices
    && l == Level(l.price, entries[RunStart(entries, |entries| - 1, l.price)].day, entries[|entries| - 1].day)
  }

  /** One step closes exactly the open prices its entry lacks, on its day. */
  lemma StepLevels(c: Compaction, e: Entry, l: Level)
    ensures l in Step(c, e).levels <==>
      || l in c.levels
      || (l.price in c.open && l.price !in e.prices && l == Level(l.price, c.open[l.price], e.day))
  {
  }

  /** A price present before and after a step keeps its opening day; a new one opens on the step's day. */
  lemma StepOpen(c: Compaction, e: Entry, p: real)
    requires p in e.prices
    ensures p in Step(c, e).open
    ensures Step(c, e).open[p] == if p in c.open then c.open[p] else e.day
  {
  }

  /**
    After `n` entries the open prices are those of entry `n - 1`, each with
    the day its current run started.
   */
  lemma {:induction false} CompactOpen(entries: seq<Entry>, n: nat)
    requires n <= |entries|
    ensures n == 0 ==> Compact(entries, n).open == map[]
    ensures forall p :: p in Compact(entries, n).open ==>
      (n > 0 && p in entries[n - 1].prices
        && Compact(entries, n).open[p] == entries[RunStart(entries, n - 1, p)].day)
  {
    if n > 0 {
      CompactOpen(entries, n - 1);
      var prev := Compact(entries, n - 1);
      var c := Compact(entries, n);
      forall p | p in c.open
        ensures p in entries[n - 1].prices && c.open[p] == entries[RunStart(entries, n - 1, p)].day
      {
        assert p in PriceSet(entries[n - 1].prices);
        StepOpen(prev, entries[n - 1], p);
        if p in prev.open {
          assert RunStart(entries, n - 1, p) == RunStart(entries, n - 2, p);
        } else {
          assert n == 1 || p !in PriceSet(entries[n - 2].prices);
        }
      }
    }
  }

  /** The step from `n - 1` to `n` entries, for one level. */
  lemma ClosedRunStep(entries: seq<Entry>, n: nat, l: Level)
    requires 1 <= n <= |entries|
    requires l in Compact(entries, n - 1).levels <==> ClosedRun(entries, n - 1, l)
    requires var prev := Compact(entries, n - 1);
      l.price in prev.open ==> n >= 2 && prev.open[l.price] == entries[RunStart(entries, n - 2, l.price)].day
    requires n >= 2 && l.price in entries[n - 2].prices ==> l.price in Compact(entries, n - 1).open
    ensures l in Compact(entries, n).levels <==> ClosedRun(entries, n, l)
  {
    var prev := Compact(entries, n - 1);
    var e := entries[n - 1];
    StepLevels(prev, e, l);
    if ClosedRun(entries, n, l) && !ClosedRun(entries, n - 1, l) {
      var m: nat :| m < n && ClosedAt(entries, m, l.price) && l == ClosedLevel(entries, m, l.price);
      assert m == n - 1;
    }
    if l.price in prev.open && l.price !in e.prices && l == Level(l.price, prev.open[l.price], e.day) {
      assert ClosedAt(entries, n - 1, l.price) && l == ClosedLevel(entries, n - 1, l.price);
    }
  }

  /** After `n` entries the closed levels are exactly the runs ended by the entries `1..n - 1`. */
  lemma {:induction false} CompactLevels(entries: seq<Entry>, n: nat)
    requires n <= |entries|
    ensures forall l :: l in Compact(entries, n).levels <==> ClosedRun(entries, n, l)
  {
    if n > 0 {
      CompactLevels(entries, n - 1);
      CompactOpen(entries, n - 1);
      var prev := Compact(entries, n - 1);
      forall l
        ensures l in Compact(entries, n).levels <==> ClosedRun(entries, n, l)
      {
        if n >= 2 && l.price in entries[n - 2].prices {
          assert l.price in PriceSet(entries[n - 2].prices);
        }
        ClosedRunStep(entries, n, l);
      }
    }
  }

  /** `l` is the level of a maximal run of its price: closed where the run ends, or on the last day. */
  ghost predicate RunOf(entries: seq<Entry>, l: Level) {
    ClosedRun(entries, |entries|, l) || OpenAtEnd(entries, l)
  }

  /**
    `zones_to_levels` yields exactly one level per maximal run of consecutive
    entries holding a price: it starts on the run's first day and ends on the
    day of the first entry without the price, or on the last day when the run
    reaches the end.
   */
  lemma {:induction false} ZonesToLevelsAreRuns(entries: seq<Entry>)
    ensures forall l :: l in ZonesToLevels(entries) <==> RunOf(entries, l)
  {
    var n := |entries|;
    CompactLevels(entries, n);
    if n > 0 {
      CompactOpen(entries, n);
      var c := Compact(entries, n);
      forall l
        ensures l in ZonesToLevels(entries) <==> RunOf(entries, l)
      {
        assert l.price in c.open <==> l.price in PriceSet(entries[n - 1].prices);
      }
    }
  }

  /** Entry days strictly increase, as the keys of the zone calendar do in iteration order. */
  predicate AscendingDays(entries: seq<Entry>) {
    forall i, j :: 0 <= i < j < |entries| ==> entries[i].day < entries[j].day
  }

  /** With increasing days, no level ends before it starts. */
  lemma {:induction false} LevelsForward(entries: seq<Entry>, l: Level)
    requires AscendingDays(entries)
    requires l in ZonesToLevels(entries)
    ensures l.start <= l.end
  {
    ZonesToLevelsAreRuns(entries);
    if ClosedRun(entries, |entries|, l) {
      var m: nat :| m < |entries| && ClosedAt(entries, m, l.price) && l == ClosedLevel(entries, m, l.price);
      assert RunStart(entries, m - 1, l.price) < m;
    } else {
      assert RunStart(entries, |entries| - 1, l.price) <= |entries| - 1;
    }
  }

  /** The index just past the run of `p` through entry `i`. */
  function RunEnd(entries: seq<Entry>, i: nat, p: real): (r: nat)
    requires i < |entries| && p in entries[i].prices
    ensures i < r <= |entries|
    ensures forall k :: i <= k < r ==> p in entries[k].prices
    ensures r == |entries| || p !in entries[r].prices
    decreases |entries| - i
  {
    if i + 1 == |entries| || p !in entries[i + 1].prices then i + 1
    else RunEnd(entries, i + 1, p)
  }

  /** Every entry of a run reports the same run start. */
  lemma {:induction false} RunStartShared(entries: seq<Entry>, i: nat, j: nat, p: real)
    requires i <= j < |entries|
    requires forall k :: i <= k <= j ==> p in entries[k].prices
    ensures RunStart(entries, j, p) == RunStart(entries, i, p)
    decreases j - i
  {
    if i < j {
      RunStartShared(entries, i, j - 1, p);
    }
  }

  /** The level of the maximal run of `p` through entry `i`. */
  function CoveringLevel(entries: seq<Entry>, i: nat, p: real): Level
    requires i < |entries| && p in entries[i].prices
  {
    var m := RunEnd(entries, i, p);
    Level(p, entries[RunStart(entries, i, p)].day, entries[if m < |entries| then m else |entries| - 1].day)
  }

  /** The maximal run through any entry yields a level. */
  lemma {:induction false} CoveringLevelProduced(entries: seq<Entry>, i: nat, p: real)
    requires i < |entries| && p in entries[i].prices
    ensures CoveringLevel(entries, i, p) in ZonesToLevels(entries)
  {
    var n := |entries|;
    var m := RunEnd(entries, i, p);
    RunStartShared(entries, i, m - 1, p);
    var l := CoveringLevel(entries, i, p);
    ZonesToLevelsAreRuns(entries);
    if m < n {
      assert ClosedAt(entries, m, p) && l == ClosedLevel(entries, m, p);
      assert ClosedRun(entries, n, l);
    } else {
      assert OpenAtEnd(entries, l);
    }
  }

  /**
    Every price of every entry is covered: some level of that price spans the
    entry's day.
   */
  lemma {:induction false} LevelsCoverEntries(entries: seq<Entry>, i: nat, p: real)
    requires AscendingDays(entries)
    requires i < |entries| && p in entries[i].prices
    ensures exists l :: l in ZonesToLevels(entries) && l.price == p && l.start <= entries[i].day <= l.end
  {
    var n := |entries|;
    var m := RunEnd(entries, i, p);
    var s := RunStart(entries, i, p);
    var e := if m < n then m else n - 1;
    var l := CoveringLevel(entries, i, p);
    CoveringLevelProduced(entries, i, p);
    assert entries[s].day <= entries[i].day by {
      if s < i {
        assert entries[s].day < entries[i].day;
      }
    }
    assert entries[i].day <= entries[e].day by {
      if i < e {
        assert entries[i].day < entries[e].day;
      }
    }
    assert l.start <= entries[i].day <= l.end;
  }
}
