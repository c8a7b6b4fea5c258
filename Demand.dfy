/**
 * The zonal demand side of the pipeline: the rows of the PUB_DemandZonal
 * files, their combined and time-sorted table (`load_zonal_demand`) and the
 * calendar columns added to it (`add_time_features`).
 */
module Demand {
  import opened Wrappers
  import opened Calendar
  import opened Tables

  /** The zone columns, in the order the merger melts them. */
  const Zones: seq<string> :=
    ["Northwest", "Northeast", "Ottawa", "East", "Toronto", "Essa", "Bruce", "Southwest", "Niagara", "West"]

  /** One value per zone column, aligned with Zones. */
  type ZoneValues = s: seq<Value> | |s| == 10
    witness [None, None, None, None, None, None, None, None, None, None]

  /** One row of a demand file: Date, Hour (1 to 24), Ontario Demand and the zone columns. */
  datatype DemandRecord = DemandRecord(date: Date, hour: int, ontarioDemand: Value, zoneDemand: ZoneValues)

  /** A demand row with its derived `datetime` column. */
  datatype DemandRow = DemandRow(record: DemandRecord, datetime: Timestamp)

  /**
   * `Date + (Hour - 1)` hours: for Hour 1 to 24, a timestamp on Date itself
   * at hour of the day Hour - 1.
   */
  function RecordTimestamp(r: DemandRecord): (t: Timestamp)
    ensures 1 <= r.hour <= 24 ==> DateOf(t) == r.date && HourOf(t) == r.hour - 1
  {
    var t := StartOfDay(r.date) + (r.hour - 1);
    TimestampOnDate(r.date, r.hour - 1, t);
    t
  }

  function WithDatetime(records: seq<DemandRecord>): seq<DemandRow> {
    seq(|records|, i requires 0 <= i < |records| => DemandRow(records[i], RecordTimestamp(records[i])))
  }

  predicate ByDatetime(a: DemandRow, b: DemandRow) {
    a.datetime <= b.datetime
  }

  /**
   * `load_zonal_demand`, given the parsed rows of each file in glob order.
   * `pd.concat` of no tables fails, which is `None` here.
   */
  method LoadZonalDemand(files: seq<seq<DemandRecord>>) returns (table: Option<seq<DemandRow>>)
    ensures table.None? <==> files == []
    ensures table.Some? ==> SortedBy(table.value, ByDatetime)
    ensures table.Some? ==> multiset(table.value) == multiset(WithDatetime(Flatten(files)))
    ensures table.Some? ==> forall row :: row in table.value ==> row.datetime == RecordTimestamp(row.record)
  {
    var dfs: seq<seq<DemandRecord>> := [];
    var i := 0;
    while i < |files|
      invariant 0 <= i <= |files|
      invariant dfs == files[..i]
    {
      dfs := dfs + [files[i]];
      i := i + 1;
    }
    assert dfs == files;
    if dfs == [] {
      return None;
    }
    var combined := WithDatetime(Flatten(dfs));
    var sorted := SortBy(combined, ByDatetime);
    forall row | row in sorted ensures row.datetime == RecordTimestamp(row.record) {
      assert row in multiset(combined);
    }
    table := Some(sorted);
  }

  /** The calendar columns `add_time_features` derives from `datetime`. */
  datatype TimeFeatures = TimeFeatures(
    hour: int, dayOfWeek: int, month: int, dayOfYear: int, isHoliday: bool, isWeekend: bool)

  datatype FeaturedRow = FeaturedRow(row: DemandRow, features: TimeFeatures)

  /** `range(2018, 2026)`: the years the holiday calendar is built for. */
  const HolidayYears: seq<int> := [2018, 2019, 2020, 2021, 2022, 2023, 2024, 2025]

  lemma HolidayYearsRange()
    ensures forall y :: y in HolidayYears <==> 2018 <= y <= 2025
  {
    forall y | 2018 <= y <= 2025 ensures y in HolidayYears {
      assert HolidayYears[y - 2018] == y;
    }
  }

  /**
   * The Ontario holiday calendar for HolidayYears. The holidays library is
   * injected as `known`, the holiday dates it would list for any year; the
   * calendar holds exactly those of 2018 to 2025.
   */
  function HolidayCalendar(known: set<Date>): (h: set<Date>)
    ensures forall d :: d in h <==> d in known && 2018 <= d.year <= 2025
  {
    HolidayYearsRange();
    set d | d in known && d.year in HolidayYears
  }

  /** Monday, 1 January 2024: the weekday numbering counts from a Monday. */
  const MondayAnchor: Date := CivilDate(2024, 1, 1)

  /** The weekday is the number of days since MondayAnchor, modulo 7. */
  lemma DayOfWeekFromMonday(n: int)
    ensures DayOfWeek(n) == (n - DayNumber(MondayAnchor)) % 7
  {
    assert DayNumber(MondayAnchor) == 19723;
    assert n - 19723 == (n + 3) - 7 * 2818;
  }

  /** The calendar columns of one timestamp. */
  function TimeFeaturesOf(t: Timestamp, holidays: set<Date>): (f: TimeFeatures)
    ensures f.hour == HourOf(t) && 0 <= f.hour <= 23
    ensures f.dayOfWeek == (DayNumber(DateOf(t)) - DayNumber(MondayAnchor)) % 7 && 0 <= f.dayOfWeek <= 6
    ensures f.month == DateOf(t).month && 1 <= f.month <= 12
    ensures f.dayOfYear == DayOfYear(DateOf(t)) && 1 <= f.dayOfYear <= 366
    ensures f.dayOfYear == 366 ==> IsLeapYear(DateOf(t).year)
    ensures f.isWeekend <==> f.dayOfWeek == 5 || f.dayOfWeek == 6
    ensures f.isHoliday <==> DateOf(t) in holidays
  {
    var d := DateOf(t);
    DayOfWeekFromMonday(t / 24);
    var dow := DayOfWeek(t / 24);
    TimeFeatures(HourOf(t), dow, d.month, DayOfYear(d), d in holidays, dow == 5 || dow == 6)
  }

  /** `add_time_features`: every row keeps its columns and its place and gains its calendar columns. */
  function AddTimeFeatures(table: seq<DemandRow>, knownHolidays: set<Date>): (r: seq<FeaturedRow>)
    ensures |r| == |table|
    ensures forall i :: 0 <= i < |r| ==> r[i].row == table[i]
    ensures forall i :: 0 <= i < |r| ==> r[i].features == TimeFeaturesOf(table[i].datetime, HolidayCalendar(knownHolidays))
  {
    var holidays := HolidayCalendar(knownHolidays);
    seq(|table|, i requires 0 <= i < |table| => FeaturedRow(table[i], TimeFeaturesOf(table[i].datetime, holidays)))
  }

  /**
   * The calendar columns of a demand row come from its own Date and Hour:
   * `hour` is Hour - 1, `month` and `day_of_year` are those of Date,
   * `day_of_week` counts days since a Monday modulo 7, `is_weekend` holds
   * exactly on days 5 and 6 of that count (Saturday and Sunday), and
   * `is_holiday` exactly when Date is a listed holiday of 2018 to 2025.
   */
  lemma FeaturesOfDemandRow(table: seq<DemandRow>, knownHolidays: set<Date>, i: int)
    requires 0 <= i < |table|
    requires table[i].datetime == RecordTimestamp(table[i].record)
    requires 1 <= table[i].record.hour <= 24
    ensures var f := AddTimeFeatures(table, knownHolidays)[i].features;
      var date := table[i].record.date;
      && f.hour == table[i].record.hour - 1
      && f.month == date.month
      && f.dayOfYear == DayOfYear(date)
      && f.dayOfWeek == (DayNumber(date) - DayNumber(MondayAnchor)) % 7
      && (f.isWeekend <==> f.dayOfWeek == 5 || f.dayOfWeek == 6)
      && (f.isHoliday <==> date in knownHolidays && 2018 <= date.year <= 2025)
  {
    var r := table[i].record;
    assert DateOf(RecordTimestamp(r)) == r.date;
  }

  /** Outside 2018 to 2025 no row is flagged a holiday, whatever the library lists. */
  lemma NoHolidayOutsideCalendarYears(table: seq<DemandRow>, knownHolidays: set<Date>, i: int)
    requires 0 <= i < |table|
    requires DateOf(table[i].datetime).year < 2018 || DateOf(table[i].datetime).year > 2025
    ensures !AddTimeFeatures(table, knownHolidays)[i].features.isHoliday
  {
  }
}
