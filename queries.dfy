/** The read-only views over today.db: `/api/trains` (rows near the current
    time, ordered by scheduled arrival) and `/api/dashboard-stats`. */
module Queries {
  import opened Nullable
  import opened JsText
  import opened Clock
  import opened TrainStatus
  import opened Allocations
  import opened TodayDatabase

  // ---------------------------------------------------------------- /api/trains

  /** One entry of `/api/trains`, for the columns the allocations table has. */
  datatype TrainView = TrainView(
    id: string,
    name: string,
    scheduled: string,
    estimated: string,
    status: string,
    platform: string,
    delay: string,
    realArrival: Option<string>,
    days: string)

  /** `value || fallback` for a text column. */
  function OrElse(o: Option<string>, fallback: string): string
  {
    if Truthy(o) then o.value else fallback
  }

  /** The `.map(row => ({...}))` step. The name, platform and delay texts
      have non-empty fallbacks ("Unknown Train", "-", "Right Time"), and the
      schedule the filter and the sort read parses exactly as the row's own
      `exp_arrival` does. */
  function View(row: Row): (v: TrainView)
    ensures v.name != "" && v.platform != "" && v.delay != ""
    ensures v.realArrival != Some("")
    ensures Truthy(row.expArrival) ==> v.scheduled == row.expArrival.value
    ensures !Truthy(row.expArrival) ==> v.scheduled == ""
    ensures TimeToMinutes(Some(v.scheduled)) == TimeToMinutes(row.expArrival)
  {
    TrainView(
      id := row.trainNumber,
      name := OrElse(row.trainName, "Unknown Train"),
      scheduled := OrElse(row.expArrival, ""),
      estimated := OrElse(row.realArrival, OrElse(row.expArrival, "")),
      status := CalculateStatus(row.expArrival, row.realArrival, row.delay),
      platform := OrElse(row.allocatedPlatform, "-"),
      delay := OrElse(row.delay, RightTime),
      realArrival := OrNull(row.realArrival),
      days := OrElse(row.days, ""))
  }

  /** How far either side of now `/api/trains` and the dashboard look. */
  const Horizon := 240

  /** `Math.abs(schedMin - nowMinutes) <= 240` on a parsed time. */
  predicate Near(t: Option<string>, now: int)
  {
    match TimeToMinutes(t)
    case None => false
    case Some(m) => -Horizon <= m - now <= Horizon
  }

  /** The sort key `timeToMinutes(scheduled) || 0`. */
  function SortKey(v: TrainView): nat
  {
    match TimeToMinutes(Some(v.scheduled))
    case None => 0
    case Some(m) => m
  }

  /** The `.filter(...)` step, in order. */
  function KeepNear(views: seq<TrainView>, now: int): (kept: seq<TrainView>)
    ensures forall v :: v in kept <==> v in views && Near(Some(v.scheduled), now)
    ensures |kept| <= |views|
  {
    if views == [] then []
    else
      var rest := KeepNear(views[1..], now);
      assert views == [views[0]] + views[1..];
      if Near(Some(views[0].scheduled), now) then [views[0]] + rest else rest
  }

  /** The filter keeps the table's order: filtering a concatenation is
      concatenating the filtered parts. */
  lemma {:induction false} KeepNearAppend(a: seq<TrainView>, b: seq<TrainView>, now: int)
    ensures KeepNear(a + b, now) == KeepNear(a, now) + KeepNear(b, now)
  {
    if a == [] {
      assert a + b == b;
    } else {
      assert (a + b)[0] == a[0] && (a + b)[1..] == a[1..] + b;
      KeepNearAppend(a[1..], b, now);
    }
  }

  /** A single entry is kept exactly when it is near. */
  lemma KeepNearOne(v: TrainView, now: int)
    ensures KeepNear([v], now) == if Near(Some(v.scheduled), now) then [v] else []
  {
  }

  /** Puts `v` before the first entry whose key is not smaller. */
  function Insert(v: TrainView, sorted: seq<TrainView>): seq<TrainView>
  {
    if sorted == [] || SortKey(v) <= SortKey(sorted[0]) then [v] + sorted
    else [sorted[0]] + Insert(v, sorted[1..])
  }

  /** The stable `.sort((a, b) => aMin - bMin)`: it keeps exactly the
      entries it is given. */
  function SortByKey(views: seq<TrainView>): (sorted: seq<TrainView>)
    ensures multiset(sorted) == multiset(views)
  {
    if views == [] then []
    else
      var rest := SortByKey(views[1..]);
      InsertPermutes(views[0], rest);
      assert views == [views[0]] + views[1..];
      Insert(views[0], rest)
  }

  predicate Ascending(views: seq<TrainView>)
  {
    forall i, j :: 0 <= i < j < |views| ==> SortKey(views[i]) <= SortKey(views[j])
  }

  /** The entries with sort key `k`, in order. */
  function WithKey(views: seq<TrainView>, k: nat): seq<TrainView>
  {
    if views == [] then []
    else (if SortKey(views[0]) == k then [views[0]] else []) + WithKey(views[1..], k)
  }

  /** An entry no later than every entry of an ascending list can go first. */
  lemma AscendingCons(a: TrainView, t: seq<TrainView>)
    requires Ascending(t)
    requires forall x :: x in t ==> SortKey(a) <= SortKey(x)
    ensures Ascending([a] + t)
  {
    var r := [a] + t;
    forall i, j | 0 <= i < j < |r| ensures SortKey(r[i]) <= SortKey(r[j]) {
      assert r[j] == t[j - 1];
      if i > 0 {
        assert r[i] == t[i - 1];
      }
    }
  }

  lemma {:induction false} InsertPermutes(v: TrainView, sorted: seq<TrainView>)
    ensures multiset(Insert(v, sorted)) == multiset(sorted) + multiset{v}
  {
    if sorted != [] && SortKey(v) > SortKey(sorted[0]) {
      InsertPermutes(v, sorted[1..]);
      assert sorted == [sorted[0]] + sorted[1..];
    }
  }

  lemma {:induction false} InsertKeepsOrder(v: TrainView, sorted: seq<TrainView>)
    requires Ascending(sorted)
    ensures Ascending(Insert(v, sorted))
  {
    if sorted == [] || SortKey(v) <= SortKey(sorted[0]) {
      AscendingCons(v, sorted);
    } else {
      var tail := sorted[1..];
      InsertKeepsOrder(v, tail);
      InsertPermutes(v, tail);
      forall x | x in Insert(v, tail) ensures SortKey(sorted[0]) <= SortKey(x) {
        assert x in multiset(Insert(v, tail));
        if x != v {
          assert x in multiset(tail);
          var k :| 0 <= k < |tail| && tail[k] == x;
          assert sorted[k + 1] == x;
        }
      }
      AscendingCons(sorted[0], Insert(v, tail));
    }
  }

  /** The result is ascending by scheduled minutes and holds exactly the
      input entries. */
  lemma {:induction false} SortByKeySorts(views: seq<TrainView>)
    ensures Ascending(SortByKey(views))
    ensures multiset(SortByKey(views)) == multiset(views)
  {
    if views != [] {
      SortByKeySorts(views[1..]);
      InsertKeepsOrder(views[0], SortByKey(views[1..]));
    }
  }

  lemma {:induction false} InsertWithKey(v: TrainView, t: seq<TrainView>, k: nat)
    ensures WithKey(Insert(v, t), k) == (if SortKey(v) == k then [v] else []) + WithKey(t, k)
  {
    if t != [] && SortKey(v) > SortKey(t[0]) {
      InsertWithKey(v, t[1..], k);
      assert Insert(v, t) == [t[0]] + Insert(v, t[1..]);
      assert Insert(v, t)[1..] == Insert(v, t[1..]);
    } else {
      assert Insert(v, t) == [v] + t;
      assert Insert(v, t)[1..] == t;
    }
  }

  /** The sort is stable: entries with the same scheduled minute keep the
      order they had in the table. */
  lemma {:induction false} SortByKeyStable(views: seq<TrainView>, k: nat)
    ensures WithKey(SortByKey(views), k) == WithKey(views, k)
  {
    if views != [] {
      SortByKeyStable(views[1..], k);
      InsertWithKey(views[0], SortByKey(views[1..]), k);
    }
  }

  /** The `.map(...)` over the whole table: one view per row, in order. */
  function Views(rows: seq<Row>): (views: seq<TrainView>)
    ensures |views| == |rows|
    ensures forall i :: 0 <= i < |rows| ==> views[i] == View(rows[i])
    ensures forall v :: v in views <==> exists r :: r in rows && v == View(r)
  {
    if rows == [] then []
    else
      assert rows == [rows[0]] + rows[1..];
      [View(rows[0])] + Views(rows[1..])
  }

  /** The entries of `/api/trains` for the table `rows` at minute `now`. */
  function TrainsOf(rows: seq<Row>, now: int): seq<TrainView>
  {
    SortByKey(KeepNear(Views(rows), now))
  }

  /** Sorting neither adds nor drops an entry. */
  lemma SortedMembers(views: seq<TrainView>)
    ensures Ascending(SortByKey(views))
    ensures forall v :: v in SortByKey(views) <==> v in views
  {
    SortByKeySorts(views);
    forall v ensures v in SortByKey(views) <==> v in views {
      assert v in SortByKey(views) <==> v in multiset(SortByKey(views));
      assert v in views <==> v in multiset(views);
    }
  }

  /** `/api/trains` lists exactly the views of the rows scheduled within
      four hours of now, each as often as in the table, earliest first. */
  lemma TrainsContents(rows: seq<Row>, now: int)
    ensures Ascending(TrainsOf(rows, now))
    ensures forall v :: v in TrainsOf(rows, now) <==> (exists r :: r in rows && v == View(r)) && Near(Some(v.scheduled), now)
    ensures forall v :: v in TrainsOf(rows, now) ==> TimeToMinutes(Some(v.scheduled)) == Some(SortKey(v))
    ensures multiset(TrainsOf(rows, now)) == multiset(KeepNear(Views(rows), now))
  {
    SortedMembers(KeepNear(Views(rows), now));
    SortByKeySorts(KeepNear(Views(rows), now));
  }

  /** A scheduled time that is missing, "TBD" or malformed keeps the row off
      `/api/trains`, whatever else it holds. */
  lemma UnscheduledNotListed(row: Row, now: int)
    requires TimeToMinutes(row.expArrival).None?
    ensures !Near(Some(View(row).scheduled), now)
  {
  }

  /** `/api/trains`, or a database error without the table. */
  method ListTrains(db: TodayDb, now: int) returns (r: Result<seq<TrainView>>)
    ensures db.present ==> r == Ok(TrainsOf(db.table[..], now))
    ensures !db.present ==> r == DatabaseError
  {
    if !db.present {
      return DatabaseError;
    }
    r := Ok(TrainsOf(db.table[..], now));
  }

  // ---------------------------------------------------------------- /api/dashboard-stats

  /** `row.delay && row.delay.includes("Delayed")`: a delayed row always
      has a delay text, and never "Right Time". */
  predicate IsDelayed(row: Row)
    ensures IsDelayed(row) ==> Truthy(row.delay) && row.delay.value != RightTime
  {
    RightTimeIsNotDelayed();
    Truthy(row.delay) && Contains(row.delay.value, DelayMarker)
  }

  /** `!row.delay || row.delay === "Right Time" || (row.delay && !row.delay.includes("Delayed"))`:
      every row is exactly one of on time and delayed. */
  predicate IsOnTime(row: Row)
    ensures IsOnTime(row) <==> !IsDelayed(row)
  {
    RightTimeIsNotDelayed();
    !Truthy(row.delay) || row.delay.value == RightTime || (Truthy(row.delay) && !Contains(row.delay.value, DelayMarker))
  }

  /** `allocated_platform && allocated_platform !== '-'`. */
  predicate HasPlatform(row: Row)
  {
    Truthy(row.allocatedPlatform) && row.allocatedPlatform.value != "-"
  }

  /** The minutes the average delay takes from a delayed row: the first run
      of digits in its delay text. */
  function DelayMinutes(row: Row): (r: Option<nat>)
    ensures r.Some? <==> IsDelayed(row) && FirstNumber(row.delay.value).Some?
    ensures r.Some? ==> IsDelayed(row) && r == FirstNumber(row.delay.value)
  {
    if IsDelayed(row) then FirstNumber(row.delay.value) else None
  }

  /** Counters over the first `n` rows. */
  function OnTimeCount(rows: seq<Row>, n: nat): nat
    requires n <= |rows|
  {
    if n == 0 then 0 else OnTimeCount(rows, n - 1) + if IsOnTime(rows[n - 1]) then 1 else 0
  }

  function DelayedCount(rows: seq<Row>, n: nat): nat
    requires n <= |rows|
  {
    if n == 0 then 0 else DelayedCount(rows, n - 1) + if IsDelayed(rows[n - 1]) then 1 else 0
  }

  function ActiveCount(rows: seq<Row>, n: nat, now: int): nat
    requires n <= |rows|
  {
    if n == 0 then 0 else ActiveCount(rows, n - 1, now) + if Near(rows[n - 1].expArrival, now) then 1 else 0
  }

  function PlatformCount(rows: seq<Row>, n: nat): nat
    requires n <= |rows|
  {
    if n == 0 then 0 else PlatformCount(rows, n - 1) + if HasPlatform(rows[n - 1]) then 1 else 0
  }

  /** `totalDelayMinutes` over the first `n` rows. */
  function DelaySum(rows: seq<Row>, n: nat): nat
    requires n <= |rows|
  {
    if n == 0 then 0
    else DelaySum(rows, n - 1) + match DelayMinutes(rows[n - 1]) case Some(d) => d case None => 0
  }

  /** `delayCount` over the first `n` rows. */
  function DelayCount(rows: seq<Row>, n: nat): nat
    requires n <= |rows|
  {
    if n == 0 then 0 else DelayCount(rows, n - 1) + if DelayMinutes(rows[n - 1]).Some? then 1 else 0
  }

  /** The dashboard's on-time and delayed counts split the table. */
  lemma {:induction false} OnTimePlusDelayed(rows: seq<Row>, n: nat)
    requires n <= |rows|
    ensures OnTimeCount(rows, n) + DelayedCount(rows, n) == n
  {
    if n > 0 {
      OnTimePlusDelayed(rows, n - 1);
    }
  }

  /** Only delayed rows with a number in their text enter the average. */
  lemma {:induction false} DelayCountBound(rows: seq<Row>, n: nat)
    requires n <= |rows|
    ensures DelayCount(rows, n) <= DelayedCount(rows, n)
  {
    if n > 0 {
      DelayCountBound(rows, n - 1);
    }
  }

  /** `Math.round(total / count)` for a non-negative total: halves round up. */
  function RoundedMean(total: nat, count: nat): (r: nat)
    requires count > 0
    ensures 2 * r * count <= 2 * total + count < 2 * (r + 1) * count
  {
    (2 * total + count) / (2 * count)
  }

  lemma MulStep(a: int, b: int, c: int)
    ensures 0 <= c && a < b ==> 2 * (a + 1) * c <= 2 * b * c
  {
    if 0 <= c && a < b {
      var k := b - (a + 1);
      assert 2 * b * c == 2 * (a + 1) * c + 2 * k * c;
    }
  }

  /** The rounded mean is the one whole number whose distance to
      total / count is below one half, or exactly one half from above: the
      nearest value, ties going up, as `Math.round` does. */
  lemma RoundedMeanUnique(total: nat, count: nat, n: nat)
    requires count > 0
    requires 2 * n * count <= 2 * total + count < 2 * (n + 1) * count
    ensures n == RoundedMean(total, count)
  {
    var r := RoundedMean(total, count);
    MulStep(n, r, count);
    MulStep(r, n, count);
  }

  /** What `/api/dashboard-stats` reports, apart from the percentages. */
  datatype DashboardStats = DashboardStats(
    totalTrains: nat,
    activeTrains: nat,
    onTimeTrains: nat,
    delayedTrains: nat,
    platformsInUse: nat,
    averageDelay: nat)

  /** `/api/dashboard-stats` at minute `now`. */
  method Dashboard(db: TodayDb, now: int) returns (r: Result<DashboardStats>)
    ensures !db.present ==> r == DatabaseError
    ensures db.present ==> r.Ok?
    ensures r.Ok? ==> var rows, s := db.table[..], r.value;
              && s.totalTrains == |rows|
              && s.activeTrains == ActiveCount(rows, |rows|, now)
              && s.onTimeTrains == OnTimeCount(rows, |rows|)
              && s.delayedTrains == DelayedCount(rows, |rows|)
              && s.onTimeTrains + s.delayedTrains == s.totalTrains
              && s.platformsInUse == PlatformCount(rows, |rows|)
              && s.averageDelay == (if DelayCount(rows, |rows|) > 0 then RoundedMean(DelaySum(rows, |rows|), DelayCount(rows, |rows|)) else 0)
  {
    if !db.present {
      return DatabaseError;
    }
    var rows := db.table[..];
    var totalDelayMinutes, delayCount := 0, 0;
    for i := 0 to |rows|
      invariant totalDelayMinutes == DelaySum(rows, i)
      invariant delayCount == DelayCount(rows, i)
    {
      var row := rows[i];
      if IsDelayed(row) {
        match FirstNumber(row.delay.value) {
          case Some(d) =>
            totalDelayMinutes := totalDelayMinutes + d;
            delayCount := delayCount + 1;
          case None =>
        }
      }
    }
    var avgDelay := if delayCount > 0 then RoundedMean(totalDelayMinutes, delayCount) else 0;
    OnTimePlusDelayed(rows, |rows|);
    r := Ok(DashboardStats(|rows|, ActiveCount(rows, |rows|, now), OnTimeCount(rows, |rows|),
                           DelayedCount(rows, |rows|), PlatformCount(rows, |rows|), avgDelay));
  }
}
