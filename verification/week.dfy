/** Current-week estimation and detection (`approximateCurrentWeek`,
    `detectCurrentWeek`). The kickoff date arrives as the weekday of September 1 and
    the elapsed milliseconds since kickoff; whether a week has games is a parameter. */
module Week {

  /** Milliseconds in a week. */
  const WeekMs: int := 7 * 24 * 3600 * 1000

  /** The last week probed or reported. */
  const LastWeek: int := 22

  /** The weekday of September `day`. */
  function Weekday(sep1Weekday: int, day: int): int {
    (sep1Weekday + day - 1) % 7
  }

  /** Milliseconds in a day. */
  const DayMs: int := 24 * 3600 * 1000

  /** Reference: the day of the first Thursday of September, counted from the weekday
      of September 1 (Thursday is 4). */
  function ThursdayDay(sep1Weekday: int): int {
    if sep1Weekday <= 4 then 5 - sep1Weekday else 12 - sep1Weekday
  }

  /** The September day of the first Thursday, walking forward from September 1 as the
      `while (d.getDay() !== 4)` loop does; weekdays count 0 (Sunday) to 6. */
  method FirstThursday(sep1Weekday: int) returns (day: int)
    requires 0 <= sep1Weekday <= 6
    ensures 1 <= day <= 7
    ensures Weekday(sep1Weekday, day) == 4
    ensures forall e :: 1 <= e < day ==> Weekday(sep1Weekday, e) != 4
    ensures day == ThursdayDay(sep1Weekday)
  {
    day := 1;
    var weekday := sep1Weekday;
    while weekday != 4
      invariant 1 <= day <= 7
      invariant 0 <= weekday <= 6 && weekday == Weekday(sep1Weekday, day)
      invariant forall e :: 1 <= e < day ==> Weekday(sep1Weekday, e) != 4
      invariant weekday <= 4 ==> day + (4 - weekday) <= 7
      invariant weekday > 4 ==> day + (11 - weekday) <= 7
      decreases if weekday <= 4 then 4 - weekday else 11 - weekday
    {
      day := day + 1;
      weekday := (weekday + 1) % 7;
    }
  }

  /** `approximateCurrentWeek`: whole weeks since kickoff plus one, clamped to 1..22. */
  function ApproximateCurrentWeek(elapsedMs: int): (r: int)
    ensures 1 <= r <= LastWeek
    ensures var e := if elapsedMs < 0 then 0 else elapsedMs;
            && (r < LastWeek ==> (r - 1) * WeekMs <= e < r * WeekMs)
            && (r == LastWeek ==> (LastWeek - 1) * WeekMs <= e)
  {
    var e := if elapsedMs < 0 then 0 else elapsedMs;
    var week := e / WeekMs + 1;
    if week > LastWeek then LastWeek else if week < 1 then 1 else week
  }

  /** `approximateCurrentWeek(year)` with its kickoff: the first Thursday of September is
      found by the walk, and the elapsed time is counted from its midnight. The reading
      is given as milliseconds since midnight of September 1. */
  method ApproximateWeekSinceSeptember(sep1Weekday: int, sinceSep1Ms: int) returns (r: int)
    requires 0 <= sep1Weekday <= 6
    ensures 1 <= r <= LastWeek
    ensures r == ApproximateCurrentWeek(sinceSep1Ms - (ThursdayDay(sep1Weekday) - 1) * DayMs)
    ensures sinceSep1Ms < WeekMs ==> r == 1
    ensures sinceSep1Ms >= LastWeek * WeekMs ==> r == LastWeek
  {
    var day := FirstThursday(sep1Weekday);
    r := ApproximateCurrentWeek(sinceSep1Ms - (day - 1) * DayMs);
  }

  /** Later moments never give an earlier week. */
  lemma ApproximationIsMonotone(a: int, b: int)
    requires a <= b
    ensures ApproximateCurrentWeek(a) <= ApproximateCurrentWeek(b)
  {
  }

  function Dist(w: int, approx: int): int {
    if w < approx then approx - w else w - approx
  }

  /** `Math.max(1, approx - d)`. */
  function Lo(approx: int, d: int): int {
    if approx - d < 1 then 1 else approx - d
  }

  /** `Math.min(22, approx + d)`. */
  function Hi(approx: int, d: int): int {
    if approx + d > LastWeek then LastWeek else approx + d
  }

  /** Candidate order: nearer weeks first, and of two at the same distance the earlier. */
  predicate ProbeOrder(a: int, b: int, approx: int) {
    Dist(a, approx) < Dist(b, approx) || (Dist(a, approx) == Dist(b, approx) && a < b)
  }

  /** A probe list so far: it starts with the estimate, holds exactly the weeks from
      `lo` to `hi`, and is ordered nearest first. */
  ghost predicate Probed(r: seq<int>, approx: int, lo: int, hi: int) {
    && |r| >= 1 && r[0] == approx
    && (forall w :: w in r <==> lo <= w <= hi)
    && (forall i, j :: 0 <= i < j < |r| ==> ProbeOrder(r[i], r[j], approx))
  }

  /** Adding `max(1, approx - d)` unless present extends the list downwards. */
  lemma ProbeLow(r: seq<int>, approx: int, d: int)
    requires 1 <= approx <= LastWeek && d >= 1
    requires Probed(r, approx, Lo(approx, d - 1), Hi(approx, d - 1))
    ensures Probed(if Lo(approx, d) in r then r else r + [Lo(approx, d)], approx, Lo(approx, d), Hi(approx, d - 1))
  {
    var w := Lo(approx, d);
    if w !in r {
      var r' := r + [w];
      assert Dist(w, approx) == d;
      forall i, j | 0 <= i < j < |r'| ensures ProbeOrder(r'[i], r'[j], approx) {
        if j == |r| {
          assert r'[i] in r;
        }
      }
    }
  }

  /** Adding `min(22, approx + d)` unless present extends the list upwards. */
  lemma ProbeHigh(r: seq<int>, approx: int, d: int)
    requires 1 <= approx <= LastWeek && d >= 1
    requires Probed(r, approx, Lo(approx, d), Hi(approx, d - 1))
    ensures Probed(if Hi(approx, d) in r then r else r + [Hi(approx, d)], approx, Lo(approx, d), Hi(approx, d))
  {
    var w := Hi(approx, d);
    if w !in r {
      var r' := r + [w];
      assert Dist(w, approx) == d;
      forall i, j | 0 <= i < j < |r'| ensures ProbeOrder(r'[i], r'[j], approx) {
        if j == |r| {
          assert r'[i] in r;
        }
      }
    }
  }

  /** The probe list of `detectCurrentWeek`: `approx - d` and `approx + d` for d from 0 to
      3, clamped to 1..22, each added unless already present. */
  method ProbeCandidates(approx: int) returns (r: seq<int>)
    requires 1 <= approx <= LastWeek
    ensures 1 <= |r| <= 7 && r[0] == approx
    ensures forall i :: 0 <= i < |r| ==> 1 <= r[i] <= LastWeek
    ensures forall w :: w in r <==> Lo(approx, 3) <= w <= Hi(approx, 3)
    ensures forall i, j :: 0 <= i < j < |r| ==> ProbeOrder(r[i], r[j], approx) && r[i] != r[j]
  {
    r := [approx];
    var d := 1;
    while d <= 3
      invariant 1 <= d <= 4
      invariant |r| <= 2 * d - 1
      invariant Probed(r, approx, Lo(approx, d - 1), Hi(approx, d - 1))
    {
      var w1 := Lo(approx, d);
      var w2 := Hi(approx, d);
      ProbeLow(r, approx, d);
      if w1 !in r {
        r := r + [w1];
      }
      ProbeHigh(r, approx, d);
      if w2 !in r {
        r := r + [w2];
      }
      d := d + 1;
    }
    assert forall i :: 0 <= i < |r| ==> r[i] in r;
  }

  /** A week within three of the approximation has games. */
  predicate NearbyGames(approx: int, hasGames: int -> bool) {
    exists w :: Lo(approx, 3) <= w <= Hi(approx, 3) && hasGames(w)
  }

  /** `detectCurrentWeek`: the first probe candidate with games; failing that, the
      latest week of 1..22 with games; failing that, the approximation. */
  method DetectCurrentWeek(elapsedMs: int, hasGames: int -> bool) returns (week: int)
    ensures 1 <= week <= LastWeek
    ensures var approx := ApproximateCurrentWeek(elapsedMs);
            NearbyGames(approx, hasGames) ==>
              && hasGames(week) && Lo(approx, 3) <= week <= Hi(approx, 3)
              && forall w :: Lo(approx, 3) <= w <= Hi(approx, 3) && ProbeOrder(w, week, approx) ==> !hasGames(w)
    ensures var approx := ApproximateCurrentWeek(elapsedMs);
            !NearbyGames(approx, hasGames) && (exists w :: 1 <= w <= LastWeek && hasGames(w)) ==>
              hasGames(week) && forall w :: week < w <= LastWeek ==> !hasGames(w)
    ensures (forall w :: 1 <= w <= LastWeek ==> !hasGames(w)) ==> week == ApproximateCurrentWeek(elapsedMs)
  {
    var approx := ApproximateCurrentWeek(elapsedMs);
    var candidates := ProbeCandidates(approx);
    var k := 0;
    while k < |candidates|
      invariant 0 <= k <= |candidates|
      invariant forall i :: 0 <= i < k ==> !hasGames(candidates[i])
    {
      if hasGames(candidates[k]) {
        week := candidates[k];
        assert week in candidates;
        forall w | Lo(approx, 3) <= w <= Hi(approx, 3) && ProbeOrder(w, week, approx)
          ensures !hasGames(w)
        {
          assert w in candidates;
          var i :| 0 <= i < |candidates| && candidates[i] == w;
        }
        return;
      }
      k := k + 1;
    }
    assert !NearbyGames(approx, hasGames) by {
      forall w | Lo(approx, 3) <= w <= Hi(approx, 3) ensures !hasGames(w) {
        assert w in candidates;
      }
    }
    var i := LastWeek - 1;
    while i >= 0
      invariant -1 <= i <= LastWeek - 1
      invariant forall w :: i + 1 < w <= LastWeek ==> !hasGames(w)
    {
      if hasGames(i + 1) {
        return i + 1;
      }
      i := i - 1;
    }
    return approx;
  }
}
