/** The deal heatmap: a 7 by 24 grid of observation counts. Times are
    microseconds since the epoch, a Thursday. */
module Heatmap {
  import opened Monitor
  import opened SaleChecks

  const HOUR := 60 * MINUTE

  /** 0 is Sunday. */
  function DayOfWeek(at: int): (d: int)
    ensures 0 <= d < 7
  {
    (at / DAY + 4) % 7
  }

  function HourOfDay(at: int): (h: int)
    ensures 0 <= h < 24
  {
    at / HOUR % 24
  }

  /** The number of the cell of a time, in row order. */
  function CellOf(at: int): (k: int)
    ensures 0 <= k < 168
    ensures k / 24 == DayOfWeek(at) && k % 24 == HourOfDay(at)
  {
    DayOfWeek(at) * 24 + HourOfDay(at)
  }

  predicate Counted(o: Observation, cutoff: int, onlyDeep: bool) {
    o.at >= cutoff && (!onlyDeep || o.isDeep)
  }

  /** The observations that count and fall into cells `lo <= k < hi`. */
  function CountBetween(obs: seq<Observation>, cutoff: int, onlyDeep: bool, lo: int, hi: int): nat {
    if obs == [] then 0
    else
      var o := obs[|obs| - 1];
      CountBetween(obs[..|obs| - 1], cutoff, onlyDeep, lo, hi)
      + if Counted(o, cutoff, onlyDeep) && lo <= CellOf(o.at) < hi then 1 else 0
  }

  function CellCount(obs: seq<Observation>, cutoff: int, onlyDeep: bool, k: int): nat {
    CountBetween(obs, cutoff, onlyDeep, k, k + 1)
  }

  function CountAt(obs: seq<Observation>, cutoff: int, onlyDeep: bool, d: int, h: int): nat {
    CellCount(obs, cutoff, onlyDeep, d * 24 + h)
  }

  function WindowCount(obs: seq<Observation>, cutoff: int, onlyDeep: bool): nat {
    if obs == [] then 0
    else WindowCount(obs[..|obs| - 1], cutoff, onlyDeep) + if Counted(obs[|obs| - 1], cutoff, onlyDeep) then 1 else 0
  }

  // ------------------------------------------------------- the query

  datatype GroupRow = GroupRow(dow: int, hod: int, count: nat)

  /** What `GROUP BY dow, hod` returns, in any order: one row for each cell
      with an observation, holding its count. */
  ghost predicate IsGrouping(rows: seq<GroupRow>, obs: seq<Observation>, cutoff: int, onlyDeep: bool) {
    && (forall i :: 0 <= i < |rows| ==>
          && 0 <= rows[i].dow < 7 && 0 <= rows[i].hod < 24
          && rows[i].count == CountAt(obs, cutoff, onlyDeep, rows[i].dow, rows[i].hod))
    && (forall d, h :: 0 <= d < 7 && 0 <= h < 24 && CountAt(obs, cutoff, onlyDeep, d, h) > 0 ==>
          exists i :: 0 <= i < |rows| && rows[i].dow == d && rows[i].hod == h)
  }

  // ------------------------------------------------------- the view

  datatype HeatmapCell = HeatmapCell(day: int, hour: int, count: nat, opacity: real)

  function Opacity(count: nat, maxCount: nat): (r: real)
    ensures 0.05 <= r <= 1.0
  {
    if maxCount > 0 && count > 0 then
      var ratio := count as real / maxCount as real;
      var capped := if ratio < 1.0 then ratio else 1.0;
      if capped > 0.05 then capped else 0.05
    else 0.05
  }

  ghost predicate IsMaximum(grid: array2<nat>, m: nat)
    reads grid
  {
    && (forall d, h :: 0 <= d < grid.Length0 && 0 <= h < grid.Length1 ==> grid[d, h] <= m)
    && (m == 0 || exists d, h :: 0 <= d < grid.Length0 && 0 <= h < grid.Length1 && grid[d, h] == m)
  }

  /** Writes the rows into a grid of zeros. */
  method FillGrid(rows: seq<GroupRow>, ghost obs: seq<Observation>, ghost cutoff: int, ghost onlyDeep: bool)
    returns (grid: array2<nat>)
    requires IsGrouping(rows, obs, cutoff, onlyDeep)
    ensures fresh(grid) && grid.Length0 == 7 && grid.Length1 == 24
    ensures forall d, h :: 0 <= d < 7 && 0 <= h < 24 ==> grid[d, h] == CountAt(obs, cutoff, onlyDeep, d, h)
  {
    grid := new nat[7, 24]((d, h) => 0);
    var n := 0;
    while n < |rows|
      invariant 0 <= n <= |rows|
      invariant forall d, h :: 0 <= d < 7 && 0 <= h < 24 ==>
                  grid[d, h] == if exists i :: 0 <= i < n && rows[i].dow == d && rows[i].hod == h
                                then CountAt(obs, cutoff, onlyDeep, d, h) else 0
    {
      var row := rows[n];
      if 0 <= row.dow < 7 && 0 <= row.hod < 24 {
        grid[row.dow, row.hod] := row.count;
      }
      n := n + 1;
    }
  }

  method MaxOf(grid: array2<nat>) returns (m: nat)
    requires grid.Length0 == 7 && grid.Length1 == 24
    ensures IsMaximum(grid, m)
  {
    m := 0;
    for d := 0 to 7
      invariant forall i, h :: 0 <= i < d && 0 <= h < 24 ==> grid[i, h] <= m
      invariant m == 0 || exists i, h :: 0 <= i < 7 && 0 <= h < 24 && grid[i, h] == m
    {
      for h := 0 to 24
        invariant forall i, k :: 0 <= i < d && 0 <= k < 24 ==> grid[i, k] <= m
        invariant forall k :: 0 <= k < h ==> grid[d, k] <= m
        invariant m == 0 || exists i, k :: 0 <= i < 7 && 0 <= k < 24 && grid[i, k] == m
      {
        if grid[d, h] > m {
          m := grid[d, h];
        }
      }
    }
  }

  /** `aggregate`, from the query's rows on. */
  method Aggregate(rows: seq<GroupRow>, ghost obs: seq<Observation>, ghost cutoff: int, ghost onlyDeep: bool)
    returns (cells: seq<HeatmapCell>, maxCount: nat)
    requires IsGrouping(rows, obs, cutoff, onlyDeep)
    ensures |cells| == 168
    ensures forall k :: 0 <= k < 168 ==>
              cells[k] == HeatmapCell(k / 24, k % 24, CellCount(obs, cutoff, onlyDeep, k),
                                      Opacity(CellCount(obs, cutoff, onlyDeep, k), maxCount))
    ensures forall k :: 0 <= k < 168 ==> CellCount(obs, cutoff, onlyDeep, k) <= maxCount
    ensures exists k :: 0 <= k < 168 && CellCount(obs, cutoff, onlyDeep, k) == maxCount
  {
    var grid := FillGrid(rows, obs, cutoff, onlyDeep);
    maxCount := MaxOf(grid);
    cells := [];
    for d := 0 to 7
      invariant |cells| == 24 * d
      invariant forall k :: 0 <= k < |cells| ==>
                  cells[k] == HeatmapCell(k / 24, k % 24, grid[k / 24, k % 24], Opacity(grid[k / 24, k % 24], maxCount))
    {
      for h := 0 to 24
        invariant |cells| == 24 * d + h
        invariant forall k :: 0 <= k < |cells| ==>
                    cells[k] == HeatmapCell(k / 24, k % 24, grid[k / 24, k % 24],
                                            Opacity(grid[k / 24, k % 24], maxCount))
      {
        assert (24 * d + h) / 24 == d && (24 * d + h) % 24 == h;
        cells := cells + [HeatmapCell(d, h, grid[d, h], Opacity(grid[d, h], maxCount))];
      }
    }
    forall k | 0 <= k < 168
      ensures grid[k / 24, k % 24] == CellCount(obs, cutoff, onlyDeep, k)
      ensures CellCount(obs, cutoff, onlyDeep, k) <= maxCount
    {
      assert k / 24 * 24 + k % 24 == k;
    }
    if maxCount == 0 {
      assert CellCount(obs, cutoff, onlyDeep, 0) == maxCount;
    } else {
      var d, h :| 0 <= d < 7 && 0 <= h < 24 && grid[d, h] == maxCount;
      assert CellCount(obs, cutoff, onlyDeep, d * 24 + h) == maxCount;
    }
  }

  // ------------------------------------------------------- conservation

  function SumOfCells(obs: seq<Observation>, cutoff: int, onlyDeep: bool, n: nat): nat {
    if n == 0 then 0 else SumOfCells(obs, cutoff, onlyDeep, n - 1) + CellCount(obs, cutoff, onlyDeep, n - 1)
  }

  lemma {:induction false} SplitCount(obs: seq<Observation>, cutoff: int, onlyDeep: bool, lo: int, mid: int, hi: int)
    requires lo <= mid <= hi
    ensures CountBetween(obs, cutoff, onlyDeep, lo, hi)
            == CountBetween(obs, cutoff, onlyDeep, lo, mid) + CountBetween(obs, cutoff, onlyDeep, mid, hi)
  {
    if obs != [] {
      SplitCount(obs[..|obs| - 1], cutoff, onlyDeep, lo, mid, hi);
    }
  }

  lemma {:induction false} EmptyRange(obs: seq<Observation>, cutoff: int, onlyDeep: bool, k: int)
    ensures CountBetween(obs, cutoff, onlyDeep, k, k) == 0
  {
    if obs != [] {
      EmptyRange(obs[..|obs| - 1], cutoff, onlyDeep, k);
    }
  }

  lemma {:induction false} SumIsCount(obs: seq<Observation>, cutoff: int, onlyDeep: bool, n: nat)
    ensures SumOfCells(obs, cutoff, onlyDeep, n) == CountBetween(obs, cutoff, onlyDeep, 0, n)
  {
    if n == 0 {
      EmptyRange(obs, cutoff, onlyDeep, 0);
    } else {
      SumIsCount(obs, cutoff, onlyDeep, n - 1);
      SplitCount(obs, cutoff, onlyDeep, 0, n - 1, n);
    }
  }

  lemma {:induction false} EveryCellIsOnTheGrid(obs: seq<Observation>, cutoff: int, onlyDeep: bool)
    ensures CountBetween(obs, cutoff, onlyDeep, 0, 168) == WindowCount(obs, cutoff, onlyDeep)
  {
    if obs != [] {
      EveryCellIsOnTheGrid(obs[..|obs| - 1], cutoff, onlyDeep);
    }
  }

  /** The 168 cells add up to the observations in the window. */
  lemma CellsAddUp(obs: seq<Observation>, cutoff: int, onlyDeep: bool)
    ensures SumOfCells(obs, cutoff, onlyDeep, 168) == WindowCount(obs, cutoff, onlyDeep)
  {
    SumIsCount(obs, cutoff, onlyDeep, 168);
    EveryCellIsOnTheGrid(obs, cutoff, onlyDeep);
  }

  /** With every observation in the window, those that count are the deep ones. */
  lemma {:induction false} WholeWindowIsDeepObservations(obs: seq<Observation>, cutoff: int)
    requires forall i :: 0 <= i < |obs| ==> obs[i].at >= cutoff
    ensures WindowCount(obs, cutoff, true) == DeepObservations(obs)
  {
    if obs != [] {
      WholeWindowIsDeepObservations(obs[..|obs| - 1], cutoff);
    }
  }

  /** Over any run from empty books with successful writes, the deep cells of a
      heatmap whose window holds all observations add up to the deep discounts
      of the check history. */
  lemma CellsAddUpToHistory(plan: Plan, b: Books, st: State, jobs: seq<Job>, cutoff: int)
    requires b.history == [] && b.observations == []
    requires forall i :: 0 <= i < |jobs| ==> !jobs[i].attempt.historyFails && !jobs[i].attempt.observationsFail
    requires var after := Before(plan, b, st, jobs, |jobs|).0;
             forall i :: 0 <= i < |after.observations| ==> after.observations[i].at >= cutoff
    ensures var after := Before(plan, b, st, jobs, |jobs|).0;
            SumOfCells(after.observations, cutoff, true, 168) == DeepHistory(after.history)
  {
    var after := Before(plan, b, st, jobs, |jobs|).0;
    DeepDiscountsAreConserved(plan, b, st, jobs, |jobs|);
    CellsAddUp(after.observations, cutoff, true);
    WholeWindowIsDeepObservations(after.observations, cutoff);
  }

  /** A larger count is never shown fainter. */
  lemma OpacityIsMonotone(a: nat, b: nat, maxCount: nat)
    requires a <= b
    ensures Opacity(a, maxCount) <= Opacity(b, maxCount)
  {
    if maxCount > 0 && a > 0 {
      RatioIsMonotone(a as real, b as real, maxCount as real);
    }
  }

  lemma RatioIsMonotone(a: real, b: real, m: real)
    requires a <= b && m > 0.0
    ensures a / m <= b / m
  {
    assert (b - a) / m >= 0.0;
    assert b / m - a / m == (b - a) / m;
  }

  lemma QuotientAtLeast(c: real, m: real, x: real)
    requires m > 0.0
    ensures (c / m) * m == c && (c / m >= x <==> c >= x * m)
  {
    var q := c / m;
    assert q * m == c;
    if q >= x {
      assert (q - x) * m >= 0.0;
    } else {
      assert (x - q) * m > 0.0;
    }
  }

  /** The fullest cell is opaque, an empty one has 0.05, and between them opacity
      is the share of the fullest, but at least 0.05. */
  lemma OpacityIs(count: nat, maxCount: nat)
    requires count <= maxCount
    ensures maxCount > 0 ==> Opacity(maxCount, maxCount) == 1.0
    ensures Opacity(0, maxCount) == 0.05
    ensures 0 < count ==>
              Opacity(count, maxCount)
              == if 20 * count >= maxCount then count as real / maxCount as real else 0.05
  {
    if 0 < count {
      QuotientAtLeast(count as real, maxCount as real, 0.05);
      QuotientAtLeast(count as real, maxCount as real, 1.0);
    }
  }

  lemma DayIs(k: int, s: int)
    requires 0 <= s < 86_400_000_000
    ensures (k * 86_400_000_000 + s) / 86_400_000_000 == k
  {
  }

  lemma HourIs(k: int, r: int)
    requires 0 <= r < 3_600_000_000
    ensures (k * 3_600_000_000 + r) / 3_600_000_000 == k
  {
  }

  lemma HourInDay(k: int, h: int)
    requires 0 <= h < 24
    ensures (24 * k + h) % 24 == h
  {
  }

  /** Hour `h` of day `k` since the epoch, a Thursday; 0 is Sunday. */
  lemma ClockIs(k: int, h: int, r: int)
    requires 0 <= h < 24 && 0 <= r < 3_600_000_000
    ensures var at := k * 86_400_000_000 + h * 3_600_000_000 + r;
            DayOfWeek(at) == (k + 4) % 7 && HourOfDay(at) == h
  {
    DayIs(k, h * 3_600_000_000 + r);
    HourIs(24 * k + h, r);
    HourInDay(k, h);
  }

  /** The observations a cell is about. */
  ghost function CellMembers(obs: seq<Observation>, cutoff: int, onlyDeep: bool, d: int, h: int): set<int> {
    set i | 0 <= i < |obs| && obs[i].at >= cutoff && (onlyDeep ==> obs[i].isDeep)
            && DayOfWeek(obs[i].at) == d && HourOfDay(obs[i].at) == h
  }

  lemma CellIff(at: int, d: int, h: int)
    requires 0 <= d < 7 && 0 <= h < 24
    ensures d * 24 + h <= CellOf(at) < d * 24 + h + 1 <==> DayOfWeek(at) == d && HourOfDay(at) == h
  {
  }

  lemma MembersStep(obs: seq<Observation>, o: Observation, cutoff: int, onlyDeep: bool, d: int, h: int)
    ensures |CellMembers(obs + [o], cutoff, onlyDeep, d, h)|
            == |CellMembers(obs, cutoff, onlyDeep, d, h)|
               + if o.at >= cutoff && (onlyDeep ==> o.isDeep) && DayOfWeek(o.at) == d && HourOfDay(o.at) == h
                 then 1 else 0
  {
    var before, n := CellMembers(obs, cutoff, onlyDeep, d, h), |obs|;
    assert n !in before;
    MembersAre(obs, o, cutoff, onlyDeep, d, h);
  }

  lemma MembersAre(obs: seq<Observation>, o: Observation, cutoff: int, onlyDeep: bool, d: int, h: int)
    ensures CellMembers(obs + [o], cutoff, onlyDeep, d, h)
            == CellMembers(obs, cutoff, onlyDeep, d, h)
               + if o.at >= cutoff && (onlyDeep ==> o.isDeep) && DayOfWeek(o.at) == d && HourOfDay(o.at) == h
                 then {|obs|} else {}
  {
    assert (obs + [o])[|obs|] == o && forall i :: 0 <= i < |obs| ==> (obs + [o])[i] == obs[i];
  }

  /** The count of a cell is the number of observations not before the cutoff, deep
      ones only if asked, of its day and hour. */
  lemma {:induction false} CountIsOfMembers(obs: seq<Observation>, cutoff: int, onlyDeep: bool, d: int, h: int)
    requires 0 <= d < 7 && 0 <= h < 24
    ensures CountAt(obs, cutoff, onlyDeep, d, h) == |CellMembers(obs, cutoff, onlyDeep, d, h)|
  {
    if obs == [] {
      assert CellMembers(obs, cutoff, onlyDeep, d, h) == {};
    } else {
      var before, o := obs[..|obs| - 1], obs[|obs| - 1];
      CountIsOfMembers(before, cutoff, onlyDeep, d, h);
      CellIff(o.at, d, h);
      MembersStep(before, o, cutoff, onlyDeep, d, h);
      assert obs == before + [o];
    }
  }
}
