/**
 * `main`: load and time-feature the demand table, load the climate table,
 * merge them and add the lags of Ontario Demand.
 *
 * The source adds the lags positionally to the merged long table, which
 * holds ten rows per hour; the lags it means are in hours. This module
 * models `main` as written (ProcessDataAsWritten, with the discrepancy
 * shown by PositionalLagsOnGrid) and `main` with the hourly lag builder
 * (ProcessData).
 */
module Pipeline {
  import opened Wrappers
  import opened Calendar
  import opened Tables
  import opened Demand
  import opened Climate
  import opened Merge
  import opened Lags

  /** The lags `main` asks for: a day, two days and a week of hours. */
  const MainLags: seq<int> := [24, 48, 168]

  /** The `Ontario Demand` column. */
  function OntarioDemand(r: MergedRow): Value {
    r.ontarioDemand
  }

  /** The first position at or after `from` of the row keyed (t, region). */
  function FindKey(table: seq<MergedRow>, t: Timestamp, region: string, from: nat): (r: Option<nat>)
    requires from <= |table|
    ensures r.Some? ==> from <= r.value < |table| && table[r.value].datetime == t && table[r.value].region == region
    ensures forall q :: from <= q < |table| && (r.None? || q < r.value) ==>
      table[q].datetime != t || table[q].region != region
    decreases |table| - from
  {
    if from == |table| then None
    else if table[from].datetime == t && table[from].region == region then Some(from)
    else FindKey(table, t, region, from + 1)
  }

  /** Ontario Demand of the same region k hours before row i, or missing when the table has no such row. */
  function HourlyLagAt(table: seq<MergedRow>, i: int, k: int): Value
    requires 0 <= i < |table|
  {
    match FindKey(table, table[i].datetime - k, table[i].region, 0)
    case Some(q) => table[q].ontarioDemand
    case None => None
  }

  function WithHourlyLagColumns(table: seq<MergedRow>, lags: seq<int>): seq<Lagged<MergedRow>> {
    seq(|table|, i requires 0 <= i < |table| =>
      Lagged(table[i], seq(|lags|, c requires 0 <= c < |lags| => HourlyLagAt(table, i, lags[c]))))
  }

  /**
   * The lag builder the pipeline means: lag k of a row is the Ontario
   * Demand of its region k hours earlier; rows missing any lag are dropped.
   */
  method CreateHourlyLagFeatures(table: seq<MergedRow>, lags: seq<int>) returns (out: seq<Lagged<MergedRow>>)
    ensures out == Filter(WithHourlyLagColumns(table, lags), (r: Lagged<MergedRow>) => Complete(r))
  {
    var columns: seq<seq<Value>> := [];
    var j := 0;
    while j < |lags|
      invariant 0 <= j <= |lags|
      invariant |columns| == j
      invariant forall c :: 0 <= c < j ==> |columns[c]| == |table|
      invariant forall c, i :: 0 <= c < j && 0 <= i < |table| ==> columns[c][i] == HourlyLagAt(table, i, lags[c])
    {
      var k := lags[j];
      var column := seq(|table|, i requires 0 <= i < |table| => HourlyLagAt(table, i, k));
      columns := columns + [column];
      j := j + 1;
    }
    var withLags := seq(|table|, i requires 0 <= i < |table| =>
      Lagged(table[i], seq(|lags|, c requires 0 <= c < |lags| => columns[c][i])));
    forall i | 0 <= i < |table| ensures withLags[i] == WithHourlyLagColumns(table, lags)[i] {
      assert withLags[i].lagValues == WithHourlyLagColumns(table, lags)[i].lagValues;
    }
    assert withLags == WithHourlyLagColumns(table, lags);
    out := Filter(withLags, (r: Lagged<MergedRow>) => Complete(r));
  }

  /** Within one hour the merged table orders the ten zones by name. */
  const RegionOrder: seq<string> :=
    ["Bruce", "East", "Essa", "Niagara", "Northeast", "Northwest", "Ottawa", "Southwest", "Toronto", "West"]

  lemma RegionOrderDistinct()
    ensures forall a, b :: 0 <= a < b < |RegionOrder| ==> RegionOrder[a] != RegionOrder[b]
  {
  }

  /**
   * A merged table as the pipeline produces it from gapless hourly data:
   * `hours` consecutive hours from t0, each with one row per zone in name
   * order.
   */
  predicate IsHourlyGrid(table: seq<MergedRow>, t0: Timestamp, hours: nat) {
    && |table| == 10 * hours
    && forall p :: 0 <= p < |table| ==> table[p].datetime == t0 + p / 10 && table[p].region == RegionOrder[p % 10]
  }

  /** On the grid, the row k hours before row p in p's region is row p - 10k, when that hour is in the grid. */
  lemma GridLookup(table: seq<MergedRow>, t0: Timestamp, hours: nat, p: int, k: int)
    requires IsHourlyGrid(table, t0, hours) && 0 <= p < |table|
    ensures HourlyLagAt(table, p, k) ==
      if 0 <= p / 10 - k < hours then table[p - 10 * k].ontarioDemand else None
  {
    RegionOrderDistinct();
    var t := table[p].datetime - k;
    var region := table[p].region;
    var r := FindKey(table, t, region, 0);
    if 0 <= p / 10 - k < hours {
      var q := p - 10 * k;
      assert q / 10 == p / 10 - k && q % 10 == p % 10;
      assert 0 <= q < |table|;
      assert table[q].datetime == t && table[q].region == region;
      assert r.Some?;
      var v := r.value;
      assert v / 10 == q / 10;
      assert RegionOrder[v % 10] == RegionOrder[q % 10];
      assert v % 10 == q % 10;
      assert v == q;
    }
  }

  /**
   * Lag column c of grid row p, for a lag that looks back: the demand of
   * the row of the same zone lags[c] hours earlier, missing when that hour
   * precedes the grid.
   */
  lemma GridLagCell(table: seq<MergedRow>, t0: Timestamp, hours: nat, lags: seq<int>, p: int, c: int)
    requires IsHourlyGrid(table, t0, hours) && 0 <= p < |table| && 0 <= c < |lags| && lags[c] >= 0
    ensures WithHourlyLagColumns(table, lags)[p].lagValues[c] ==
      if p / 10 >= lags[c] then table[p - 10 * lags[c]].ontarioDemand else None
    ensures p / 10 >= lags[c] ==>
      && table[p - 10 * lags[c]].datetime == table[p].datetime - lags[c]
      && table[p - 10 * lags[c]].region == table[p].region
  {
    GridLookup(table, t0, hours, p, lags[c]);
    if p / 10 >= lags[c] {
      var q := p - 10 * lags[c];
      assert q / 10 == p / 10 - lags[c] && q % 10 == p % 10;
    }
  }

  lemma GridRowDroppedEarly(table: seq<MergedRow>, t0: Timestamp, hours: nat, lags: seq<int>, p: int)
    requires IsHourlyGrid(table, t0, hours)
    requires forall c :: 0 <= c < |lags| ==> lags[c] >= 0
    requires 0 <= p < 10 * WarmUp(lags, hours)
    ensures !Complete(WithHourlyLagColumns(table, lags)[p])
  {
    var top :| 0 <= top < |lags| && lags[top] == MaxLag(lags);
    GridLagCell(table, t0, hours, lags, p, top);
  }

  lemma GridRowKeptLate(table: seq<MergedRow>, t0: Timestamp, hours: nat, lags: seq<int>, p: int)
    requires IsHourlyGrid(table, t0, hours)
    requires forall q :: 0 <= q < |table| ==> table[q].ontarioDemand.Some?
    requires forall c :: 0 <= c < |lags| ==> lags[c] >= 0
    requires 10 * WarmUp(lags, hours) <= p < |table|
    ensures Complete(WithHourlyLagColumns(table, lags)[p])
  {
    forall c | 0 <= c < |lags| ensures WithHourlyLagColumns(table, lags)[p].lagValues[c].Some? {
      GridLagCell(table, t0, hours, lags, p, c);
    }
  }

  /**
   * On a gapless grid with no missing demand, the hourly lag builder keeps
   * exactly the rows at least max(lags) hours after the start, all ten
   * zones of each such hour: 10 × (hours - max(lags)) rows (GridLagCell
   * gives their lag values).
   */
  lemma HourlyLagsOnGrid(table: seq<MergedRow>, t0: Timestamp, hours: nat, lags: seq<int>)
    requires IsHourlyGrid(table, t0, hours)
    requires forall p :: 0 <= p < |table| ==> table[p].ontarioDemand.Some?
    requires forall c :: 0 <= c < |lags| ==> lags[c] >= 0
    ensures var m := WarmUp(lags, hours);
      var out := Filter(WithHourlyLagColumns(table, lags), (r: Lagged<MergedRow>) => Complete(r));
      && out == WithHourlyLagColumns(table, lags)[10 * m..]
      && |out| == 10 * (hours - m)
  {
    var keep := (r: Lagged<MergedRow>) => Complete(r);
    var w := WithHourlyLagColumns(table, lags);
    var m := WarmUp(lags, hours);
    forall p | 0 <= p < 10 * m ensures !keep(w[p]) {
      GridRowDroppedEarly(table, t0, hours, lags, p);
    }
    forall p | 10 * m <= p < |table| ensures keep(w[p]) {
      GridRowKeptLate(table, t0, hours, lags, p);
    }
    FilterDropsPrefix(w, keep, 10 * m);
  }

  /**
   * The grid row at position p of a 17-hour table whose Ontario Demand is its
   * hour's index, with the calendar features `add_time_features` gives that hour.
   */
  function ExampleRow(p: nat): MergedRow {
    MergedRow(p / 10, RegionOrder[p % 10], Some(p / 10), TimeFeaturesOf(p / 10, {}), None, None)
  }

  /** 17 consecutive hours from 1970-01-01T00:00, ten zones each. */
  function ExampleGrid(): seq<MergedRow> {
    seq(170, p requires 0 <= p < 170 => ExampleRow(p))
  }

  /** The example is a 17-hour grid from hour 0 whose Ontario Demand at row p is p's hour. */
  lemma ExampleGridShape()
    ensures IsHourlyGrid(ExampleGrid(), 0, 17)
    ensures forall p :: 0 <= p < 170 ==> ExampleGrid()[p].ontarioDemand == Some(p / 10)
  {
  }

  /**
   * The lags of `main` as written, on 17 gapless hours: the positional
   * builder keeps two rows (hour 16) although no row has a week of
   * history, and the first one's `lag_24` is the demand of hour 14, two
   * hours earlier; the hourly builder keeps none.
   */
  lemma PositionalLagsOnGrid()
    ensures var positional := Filter(WithLagColumns(ExampleGrid(), OntarioDemand, MainLags), (r: Lagged<MergedRow>) => Complete(r));
      && |positional| == 2
      && positional[0].row.datetime == 16
      && |positional[0].lagValues| == 3
      && positional[0].lagValues[0] == Some(14)
    ensures |Filter(WithHourlyLagColumns(ExampleGrid(), MainLags), (r: Lagged<MergedRow>) => Complete(r))| == 0
  {
    ExampleGridShape();
    PositionalLagsOnHourIndexedGrid(ExampleGrid());
  }

  /** The same on any 17-hour grid from hour 0 whose Ontario Demand is its hour's index. */
  lemma PositionalLagsOnHourIndexedGrid(g: seq<MergedRow>)
    requires IsHourlyGrid(g, 0, 17)
    requires forall p :: 0 <= p < |g| ==> g[p].ontarioDemand == Some(p / 10)
    ensures var positional := Filter(WithLagColumns(g, OntarioDemand, MainLags), (r: Lagged<MergedRow>) => Complete(r));
      && |positional| == 2
      && positional[0].row.datetime == 16
      && |positional[0].lagValues| == 3
      && positional[0].lagValues[0] == Some(14)
    ensures |Filter(WithHourlyLagColumns(g, MainLags), (r: Lagged<MergedRow>) => Complete(r))| == 0
  {
    assert MaxLag(MainLags) == 168;
    NoMissingTargetsDropsPrefix(g, OntarioDemand, MainLags);
    HourlyLagsOnGrid(g, 0, 17, MainLags);
    var w := WithLagColumns(g, OntarioDemand, MainLags);
    assert w[168].lagValues[0] == LagAt(g, OntarioDemand, 168, 24) == g[144].ontarioDemand;
    assert Filter(w, (r: Lagged<MergedRow>) => Complete(r))[0] == w[168];
  }

  /**
   * `main` as written: None when either file list is empty (`pd.concat` of
   * nothing fails); otherwise the rows of the merge of some time-sorted
   * demand table and some key-sorted climate table over exactly the files'
   * rows, lagged by position and cut to those with every lag.
   */
  method ProcessDataAsWritten(demandFiles: seq<seq<DemandRecord>>, climateFiles: seq<ClimateFile>, knownHolidays: set<Date>)
    returns (result: Option<seq<Lagged<MergedRow>>>)
    ensures result.None? <==> demandFiles == [] || climateFiles == []
    ensures result.Some? ==> exists demand, climate ::
      && SortedBy(demand, ByDatetime) && multiset(demand) == multiset(WithDatetime(Flatten(demandFiles)))
      && SortedBy(climate, ByKey) && multiset(climate) == multiset(Flatten(ReadAll(climateFiles)))
      && result.value == Filter(
           WithLagColumns(MergeDemandClimate(AddTimeFeatures(demand, knownHolidays), climate), OntarioDemand, MainLags),
           (r: Lagged<MergedRow>) => Complete(r))
  {
    var demand := LoadZonalDemand(demandFiles);
    if demand.None? {
      return None;
    }
    var featured := AddTimeFeatures(demand.value, knownHolidays);
    var climate := LoadClimateData(climateFiles);
    if climate.None? {
      return None;
    }
    var merged := MergeDemandClimate(featured, climate.value);
    var lagged := CreateLagFeatures(merged, OntarioDemand, MainLags);
    result := Some(lagged);
  }

  /**
   * `main`, with the hourly lag builder: None when either file list is
   * empty (`pd.concat` of nothing fails); otherwise the lag-complete rows of
   * the merge of some time-sorted demand table and some key-sorted climate
   * table over exactly the files' rows.
   */
  method ProcessData(demandFiles: seq<seq<DemandRecord>>, climateFiles: seq<ClimateFile>, knownHolidays: set<Date>)
    returns (result: Option<seq<Lagged<MergedRow>>>)
    ensures result.None? <==> demandFiles == [] || climateFiles == []
    ensures result.Some? ==> exists demand, climate ::
      && SortedBy(demand, ByDatetime) && multiset(demand) == multiset(WithDatetime(Flatten(demandFiles)))
      && SortedBy(climate, ByKey) && multiset(climate) == multiset(Flatten(ReadAll(climateFiles)))
      && result.value == Filter(
           WithHourlyLagColumns(MergeDemandClimate(AddTimeFeatures(demand, knownHolidays), climate), MainLags),
           (r: Lagged<MergedRow>) => Complete(r))
  {
    var demand := LoadZonalDemand(demandFiles);
    if demand.None? {
      return None;
    }
    var featured := AddTimeFeatures(demand.value, knownHolidays);
    var climate := LoadClimateData(climateFiles);
    if climate.None? {
      return None;
    }
    var merged := MergeDemandClimate(featured, climate.value);
    var lagged := CreateHourlyLagFeatures(merged, MainLags);
    result := Some(lagged);
  }
}
