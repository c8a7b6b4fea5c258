/**
 * `load_climate_data`: one table per `<region>Climate.csv` file, tagged with
 * the region named by the file, cut to the hourly series and combined into
 * one table ordered by the composite key (datetime, region).
 */
module Climate {
  import opened Wrappers
  import opened Calendar
  import opened Tables
  import opened Text

  /** `nrows=63672`: the hourly series; the daily means that follow it are not read. */
  const RowHorizon: nat := 63672

  /** One parsed row of a climate file: its `time` and the measurement columns. */
  datatype ClimateRecord = ClimateRecord(time: Timestamp, measurements: seq<Value>)

  /** A climate file as glob lists it: its path and its parsed rows. */
  datatype ClimateFile = ClimateFile(path: string, records: seq<ClimateRecord>)

  /** A row of the climate table, keyed by (datetime, region); `time` is gone. */
  datatype ClimateRow = ClimateRow(datetime: Timestamp, region: string, measurements: seq<Value>)

  /**
   * `os.path.basename(file).split('Climate')[0]`: the file name up to its
   * first "Climate", or the whole file name when it holds none.
   */
  function RegionOfPath(path: string): (r: string)
    ensures var name := Basename(path);
      && |r| <= |name| && r == name[..|r|]
      && (|r| < |name| ==> OccursAt(name, "Climate", |r|))
      && (forall j :: 0 <= j < |r| ==> !OccursAt(name, "Climate", j))
    ensures '/' !in r
  {
    var name := Basename(path);
    var r := SplitHead(name, "Climate");
    assert forall k :: 0 <= k < |r| ==> r[k] == name[k];
    r
  }

  /** The basename of `dir/name` is name when name holds no '/'. */
  lemma BasenameOfJoin(dir: string, name: string)
    requires '/' !in name
    ensures Basename(dir + "/" + name) == name
  {
    var path := dir + "/" + name;
    var b := Basename(path);
    assert path[|path| - |name| - 1] == '/';
    assert path[|path| - |name|..] == name;
  }

  lemma SliceIndex(s: string, i: int, j: int, k: int)
    ensures 0 <= i <= j <= |s| && 0 <= k < j - i ==> s[i..j][k] == s[i + k]
  {
  }

  /** Two occurrences of "Climate" never overlap: its first letter appears nowhere else in it. */
  lemma ClimateOccurrencesApart(s: string, a: int, b: int)
    requires OccursAt(s, "Climate", a) && OccursAt(s, "Climate", b) && a < b
    ensures a + 7 <= b
  {
    SliceIndex(s, a, a + 7, b - a);
    SliceIndex(s, b, b + 7, 0);
  }

  /** "Climate" cannot begin within a region that does not contain it and still reach past its end. */
  lemma SplitAtSuffix(region: string, ext: string)
    requires forall j :: 0 <= j < |region| ==> !OccursAt(region, "Climate", j)
    ensures SplitHead(region + "Climate" + ext, "Climate") == region
  {
    var name := region + "Climate" + ext;
    assert OccursAt(name, "Climate", |region|) by {
      assert name[|region|..|region| + 7] == "Climate";
    }
    var r := SplitHead(name, "Climate");
    if |r| < |region| {
      assert OccursAt(name, "Climate", |r|);
      var w := name[|r|..|r| + 7];
      assert w == "Climate";
      if |r| + 7 <= |region| {
        assert region[|r|..|r| + 7] == w;
        assert OccursAt(region, "Climate", |r|);
        assert false;
      } else {
        ClimateOccurrencesApart(name, |r|, |region|);
      }
    }
    assert r == name[..|region|] == region;
  }

  /**
   * A file named `<region>Climate<ext>` in any directory yields region, when
   * region holds neither '/' nor "Climate" and ext holds no '/'.
   */
  lemma RegionOfConventionalPath(dir: string, region: string, ext: string)
    requires '/' !in region && '/' !in ext
    requires forall j :: 0 <= j < |region| ==> !OccursAt(region, "Climate", j)
    ensures RegionOfPath(dir + "/" + (region + "Climate" + ext)) == region
  {
    var name := region + "Climate" + ext;
    assert '/' !in name by {
      forall j | 0 <= j < |name| ensures name[j] != '/' {
        if j < |region| { assert name[j] == region[j]; }
        else if j < |region| + 7 { assert name[j] == "Climate"[j - |region|]; }
        else { assert name[j] == ext[j - |region| - 7]; }
      }
    }
    BasenameOfJoin(dir, name);
    SplitAtSuffix(region, ext);
  }

  lemma NoOccurrenceWithoutFirstChar(s: string, pat: string)
    requires pat != [] && pat[0] !in s
    ensures forall j :: 0 <= j < |s| ==> !OccursAt(s, pat, j)
  {
    forall j | 0 <= j < |s| ensures !OccursAt(s, pat, j) {
      if j + |pat| <= |s| {
        assert s[j] in s;
        assert s[j..j + |pat|][0] == s[j];
      }
    }
  }

  lemma NortheastName()
    ensures "Northeast" + "Climate" + ".csv" == "NortheastClimate.csv"
  {
  }

  lemma NortheastParts(dir: string)
    ensures RegionOfPath(dir + "/" + ("Northeast" + "Climate" + ".csv")) == "Northeast"
  {
    NoOccurrenceWithoutFirstChar("Northeast", "Climate");
    RegionOfConventionalPath(dir, "Northeast", ".csv");
  }

  /** In any directory, `NortheastClimate.csv` is the Northeast region. */
  lemma NortheastFile(dir: string)
    ensures RegionOfPath(dir + "/" + "NortheastClimate.csv") == "Northeast"
  {
    NortheastParts(dir);
    NortheastName();
  }

  /**
   * One file's table: its first RowHorizon rows, each carrying the region
   * the file name gives and its own time and measurements.
   */
  function ReadClimateFile(f: ClimateFile): (rows: seq<ClimateRow>)
    ensures |rows| == Min(|f.records|, RowHorizon) <= RowHorizon
    ensures forall i :: 0 <= i < |rows| ==>
      rows[i] == ClimateRow(f.records[i].time, RegionOfPath(f.path), f.records[i].measurements)
  {
    var kept := f.records[..Min(|f.records|, RowHorizon)];
    seq(|kept|, i requires 0 <= i < |kept| => ClimateRow(kept[i].time, RegionOfPath(f.path), kept[i].measurements))
  }

  /** The composite-key order of the MultiIndex: by datetime, then by region name. */
  predicate KeyLe(t1: Timestamp, r1: string, t2: Timestamp, r2: string) {
    t1 < t2 || (t1 == t2 && StrLe(r1, r2))
  }

  lemma KeyLeTotal(t1: Timestamp, r1: string, t2: Timestamp, r2: string)
    ensures KeyLe(t1, r1, t2, r2) || KeyLe(t2, r2, t1, r1)
  {
    StrLeTotal(r1, r2);
  }

  lemma KeyLeTransitive(t1: Timestamp, r1: string, t2: Timestamp, r2: string, t3: Timestamp, r3: string)
    requires KeyLe(t1, r1, t2, r2) && KeyLe(t2, r2, t3, r3)
    ensures KeyLe(t1, r1, t3, r3)
  {
    if t1 == t2 == t3 {
      StrLeTransitive(r1, r2, r3);
    }
  }

  predicate ByKey(a: ClimateRow, b: ClimateRow) {
    KeyLe(a.datetime, a.region, b.datetime, b.region)
  }

  lemma ByKeyIsTotalPreorder()
    ensures IsTotalPreorder(ByKey)
  {
    forall a: ClimateRow, b: ClimateRow ensures ByKey(a, b) || ByKey(b, a) {
      KeyLeTotal(a.datetime, a.region, b.datetime, b.region);
    }
    forall a: ClimateRow, b: ClimateRow, c: ClimateRow | ByKey(a, b) && ByKey(b, c) ensures ByKey(a, c) {
      KeyLeTransitive(a.datetime, a.region, b.datetime, b.region, c.datetime, c.region);
    }
  }

  function ReadAll(files: seq<ClimateFile>): seq<seq<ClimateRow>> {
    seq(|files|, k requires 0 <= k < |files| => ReadClimateFile(files[k]))
  }

  /**
   * `load_climate_data`, given the files in glob order: the combined table is
   * sorted by (datetime, region) and holds exactly the rows of the per-file
   * tables. `pd.concat` of no tables fails, which is `None` here.
   */
  method LoadClimateData(files: seq<ClimateFile>) returns (table: Option<seq<ClimateRow>>)
    ensures table.None? <==> files == []
    ensures table.Some? ==> SortedBy(table.value, ByKey)
    ensures table.Some? ==> multiset(table.value) == multiset(Flatten(ReadAll(files)))
  {
    var dfs: seq<seq<ClimateRow>> := [];
    var i := 0;
    while i < |files|
      invariant 0 <= i <= |files|
      invariant |dfs| == i
      invariant forall k :: 0 <= k < i ==> dfs[k] == ReadClimateFile(files[k])
    {
      var df := ReadClimateFile(files[i]);
      dfs := dfs + [df];
      i := i + 1;
    }
    assert dfs == ReadAll(files);
    if dfs == [] {
      return None;
    }
    ByKeyIsTotalPreorder();
    table := Some(SortBy(Flatten(dfs), ByKey));
  }

  /**
   * Every row of the combined table is row p < RowHorizon of some file k,
   * with the region of that file's name.
   */
  lemma ClimateRowOrigin(files: seq<ClimateFile>, table: seq<ClimateRow>, row: ClimateRow)
    returns (k: nat, p: nat)
    requires multiset(table) == multiset(Flatten(ReadAll(files)))
    requires row in table
    ensures k < |files| && p < |files[k].records| && p < RowHorizon
    ensures row == ClimateRow(files[k].records[p].time, RegionOfPath(files[k].path), files[k].records[p].measurements)
  {
    assert row in multiset(Flatten(ReadAll(files)));
    k := FlattenSource(ReadAll(files), row);
    var rows := ReadClimateFile(files[k]);
    p :| 0 <= p < |rows| && rows[p] == row;
  }

  /** No file contributes more than RowHorizon rows. */
  lemma {:induction false} ClimateTableBound(files: seq<ClimateFile>)
    ensures |Flatten(ReadAll(files))| <= RowHorizon * |files|
  {
    if files != [] {
      ClimateTableBound(files[1..]);
      assert ReadAll(files)[1..] == ReadAll(files[1..]);
    }
  }
}
