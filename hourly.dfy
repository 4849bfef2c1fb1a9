/**
 * Hourly demand series (src/feature_engineering.py, `create_hourly_demand`).
 *
 * Pickup times, in seconds, are floored to the hour and counted per hour;
 * the counts are then laid on the complete hourly grid from the earliest to
 * the latest pickup hour, an hour without pickups appearing with count 0.
 * The result is the two-column series `ds` (hour start) and `y` (count).
 */
module Hourly {

  const SecondsPerHour: int := 3600

  /** One row of the output: hour start `ds` and the number of pickups `y` in that hour. */
  datatype DemandPoint = DemandPoint(ds: int, y: nat)

  /** Start of the hour containing `t`. */
  function FloorHour(t: int): (h: int)
    ensures h % SecondsPerHour == 0 && h <= t < h + SecondsPerHour
  {
    t - t % SecondsPerHour
  }

  /** Two hour starts less than an hour apart are equal. */
  lemma AlignedClose(a: int, b: int)
    requires a % SecondsPerHour == 0 && b % SecondsPerHour == 0
    requires b <= a < b + SecondsPerHour
    ensures a == b
  {
    var x, y := a / SecondsPerHour, b / SecondsPerHour;
    assert a == SecondsPerHour * x && b == SecondsPerHour * y;
  }

  lemma FloorHourMonotone(s: int, t: int)
    requires s <= t
    ensures FloorHour(s) <= FloorHour(t)
  {
    var fs, ft := FloorHour(s), FloorHour(t);
    if ft < fs {
      AlignedClose(fs, ft);
    }
  }

  /** The hour start of an hour start is itself. */
  lemma FloorHourOfAligned(h: int)
    requires h % SecondsPerHour == 0
    ensures FloorHour(h) == h
  {
  }

  /** Number of pickups in the hour starting at `h`. */
  function HourCount(ts: seq<int>, h: int): (c: nat)
    ensures c <= |ts|
    ensures c == 0 <==> forall k :: 0 <= k < |ts| ==> FloorHour(ts[k]) != h
  {
    if ts == [] then 0
    else (if FloorHour(ts[0]) == h then 1 else 0) + HourCount(ts[1..], h)
  }

  /** Number of pickups in hours that start before `h`. */
  function CountBefore(ts: seq<int>, h: int): (c: nat)
    ensures c <= |ts|
  {
    if ts == [] then 0
    else (if FloorHour(ts[0]) < h then 1 else 0) + CountBefore(ts[1..], h)
  }

  /** Moving the bound up by one hour adds that hour's pickups. */
  lemma {:induction false} CountBeforeStep(ts: seq<int>, h: int)
    requires h % SecondsPerHour == 0
    ensures CountBefore(ts, h + SecondsPerHour) == CountBefore(ts, h) + HourCount(ts, h)
  {
    if ts != [] {
      CountBeforeStep(ts[1..], h);
      var f := FloorHour(ts[0]);
      if h <= f < h + SecondsPerHour {
        AlignedClose(f, h);
      }
    }
  }

  /** No pickup lies in an hour before `h`. */
  lemma {:induction false} CountBeforeNone(ts: seq<int>, h: int)
    requires forall k :: 0 <= k < |ts| ==> h <= FloorHour(ts[k])
    ensures CountBefore(ts, h) == 0
  {
    if ts != [] {
      CountBeforeNone(ts[1..], h);
    }
  }

  /** Every pickup lies in an hour before `h`. */
  lemma {:induction false} CountBeforeAll(ts: seq<int>, h: int)
    requires forall k :: 0 <= k < |ts| ==> FloorHour(ts[k]) < h
    ensures CountBefore(ts, h) == |ts|
  {
    if ts != [] {
      CountBeforeAll(ts[1..], h);
    }
  }

  function Earliest(ts: seq<int>): (m: int)
    requires ts != []
    ensures m in ts && forall k :: 0 <= k < |ts| ==> m <= ts[k]
  {
    if |ts| == 1 then ts[0]
    else
      var rest := Earliest(ts[1..]);
      if ts[0] <= rest then ts[0] else rest
  }

  function Latest(ts: seq<int>): (m: int)
    requires ts != []
    ensures m in ts && forall k :: 0 <= k < |ts| ==> ts[k] <= m
  {
    if |ts| == 1 then ts[0]
    else
      var rest := Latest(ts[1..]);
      if ts[0] >= rest then ts[0] else rest
  }

  /** `n` consecutive hours from `start`, each with its pickup count. */
  function Series(ts: seq<int>, start: int, n: nat): (r: seq<DemandPoint>)
    ensures |r| == n
    ensures forall i :: 0 <= i < n ==>
      r[i].ds == start + SecondsPerHour * i && r[i].y == HourCount(ts, r[i].ds)
    ensures start % SecondsPerHour == 0 ==> forall i :: 0 <= i < n ==> r[i].ds % SecondsPerHour == 0
    decreases n
  {
    if n == 0 then []
    else [DemandPoint(start, HourCount(ts, start))] + Series(ts, start + SecondsPerHour, n - 1)
  }

  /** Sum of the `y` column. */
  function TotalDemand(ps: seq<DemandPoint>): (total: nat) {
    if ps == [] then 0 else ps[0].y + TotalDemand(ps[1..])
  }

  /** The counts of a run of hours add up to the pickups inside the run. */
  lemma {:induction false} SeriesTotal(ts: seq<int>, start: int, n: nat)
    requires start % SecondsPerHour == 0
    ensures TotalDemand(Series(ts, start, n))
         == CountBefore(ts, start + SecondsPerHour * n) - CountBefore(ts, start)
    decreases n
  {
    if n > 0 {
      var s := Series(ts, start, n);
      assert s[1..] == Series(ts, start + SecondsPerHour, n - 1);
      SeriesTotal(ts, start + SecondsPerHour, n - 1);
      CountBeforeStep(ts, start);
    }
  }

  /** `resample('h').size().asfreq('h', fill_value=0)` with `ds`/`y` columns. */
  function HourlyDemand(ts: seq<int>): (r: seq<DemandPoint>)
    ensures r == [] <==> ts == []
    ensures ts != [] ==> r[0].ds == FloorHour(Earliest(ts)) && r[|r| - 1].ds == FloorHour(Latest(ts))
    ensures ts != [] ==> |r| == (FloorHour(Latest(ts)) - FloorHour(Earliest(ts))) / SecondsPerHour + 1
    ensures forall i :: 0 <= i < |r| ==> r[i].ds % SecondsPerHour == 0 && r[i].y == HourCount(ts, r[i].ds)
    ensures forall i :: 0 < i < |r| ==> r[i].ds == r[i - 1].ds + SecondsPerHour
  {
    if ts == [] then []
    else
      var first, last := FloorHour(Earliest(ts)), FloorHour(Latest(ts));
      FloorHourMonotone(Earliest(ts), Latest(ts));
      var hours := (last - first) / SecondsPerHour;
      assert first + SecondsPerHour * hours == last by {
        AlignedDifference(first, last);
      }
      Series(ts, first, hours + 1)
  }

  lemma AlignedDifference(a: int, b: int)
    requires a % SecondsPerHour == 0 && b % SecondsPerHour == 0 && a <= b
    ensures a + SecondsPerHour * ((b - a) / SecondsPerHour) == b
  {
    var x, y := a / SecondsPerHour, b / SecondsPerHour;
    assert a == SecondsPerHour * x && b == SecondsPerHour * y;
    assert b - a == SecondsPerHour * (y - x);
  }

  /** Every pickup's hour lies between the first and the last pickup hour. */
  lemma PickupHoursInRange(ts: seq<int>)
    requires ts != []
    ensures forall k :: 0 <= k < |ts| ==>
      FloorHour(Earliest(ts)) <= FloorHour(ts[k]) <= FloorHour(Latest(ts))
  {
    forall k | 0 <= k < |ts|
      ensures FloorHour(Earliest(ts)) <= FloorHour(ts[k]) <= FloorHour(Latest(ts))
    {
      FloorHourMonotone(Earliest(ts), ts[k]);
      FloorHourMonotone(ts[k], Latest(ts));
    }
  }

  /** Every pickup is counted exactly once: the `y` column sums to the number of pickups. */
  lemma TotalDemandIsPickupCount(ts: seq<int>)
    ensures TotalDemand(HourlyDemand(ts)) == |ts|
  {
    if ts != [] {
      var first, last := FloorHour(Earliest(ts)), FloorHour(Latest(ts));
      var n := (last - first) / SecondsPerHour + 1;
      assert HourlyDemand(ts) == Series(ts, first, n);
      SeriesTotal(ts, first, n);
      PickupHoursInRange(ts);
      CountsBetween(ts, first, last);
    }
  }

  /** Pickups whose hours all lie in `[first, last]` are all counted between those two hours. */
  lemma CountsBetween(ts: seq<int>, first: int, last: int)
    requires first % SecondsPerHour == 0 && last % SecondsPerHour == 0 && first <= last
    requires forall k :: 0 <= k < |ts| ==> first <= FloorHour(ts[k]) <= last
    ensures CountBefore(ts, first + SecondsPerHour * ((last - first) / SecondsPerHour + 1))
          - CountBefore(ts, first) == |ts|
  {
    AlignedDifference(first, last);
    CountBeforeNone(ts, first);
    CountBeforeAll(ts, last + SecondsPerHour);
  }

  /** Every hour from the first to the last pickup hour has a row, empty hours included. */
  lemma EveryHourHasRow(ts: seq<int>, h: int)
    requires ts != []
    requires h % SecondsPerHour == 0
    requires FloorHour(Earliest(ts)) <= h <= FloorHour(Latest(ts))
    ensures exists i :: 0 <= i < |HourlyDemand(ts)| && HourlyDemand(ts)[i].ds == h
  {
    var r := HourlyDemand(ts);
    var first := FloorHour(Earliest(ts));
    var i := (h - first) / SecondsPerHour;
    AlignedDifference(first, h);
    assert r[i].ds == h;
  }

  /** The hour of every pickup has a row with a positive count. */
  lemma EveryPickupIsInSomeRow(ts: seq<int>, k: nat)
    requires k < |ts|
    ensures exists i :: 0 <= i < |HourlyDemand(ts)| && HourlyDemand(ts)[i].ds == FloorHour(ts[k])
                        && HourlyDemand(ts)[i].y > 0
  {
    FloorHourMonotone(Earliest(ts), ts[k]);
    FloorHourMonotone(ts[k], Latest(ts));
    EveryHourHasRow(ts, FloorHour(ts[k]));
  }

  /** A row whose hour has no pickup carries 0. */
  lemma EmptyHourIsZero(ts: seq<int>, i: nat)
    requires i < |HourlyDemand(ts)|
    requires forall k :: 0 <= k < |ts| ==> FloorHour(ts[k]) != HourlyDemand(ts)[i].ds
    ensures HourlyDemand(ts)[i].y == 0
  {
  }

  /** The hour starts strictly increase along the series. */
  lemma {:induction false} HoursIncrease(ts: seq<int>, i: nat, j: nat)
    requires i < j < |HourlyDemand(ts)|
    ensures HourlyDemand(ts)[i].ds < HourlyDemand(ts)[j].ds
  {
    if i + 1 < j {
      HoursIncrease(ts, i, j - 1);
    }
  }
}
