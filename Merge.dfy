/**
 * `merge_demand_climate`: the wide demand table melted to one row per
 * (datetime, zone), left-joined to the climate table on (datetime, region)
 * and ordered by that key.
 */
module Merge {
  import opened Wrappers
  import opened Calendar
  import opened Tables
  import opened Demand
  import opened Climate

  /** A melted row: the id columns, the zone as `region` and its value as `zonal_demand`. */
  datatype MeltedRow = MeltedRow(
    datetime: Timestamp, ontarioDemand: Value, features: TimeFeatures, region: string, zonalDemand: Value)

  /** Demand row r seen through zone column z. */
  function MeltRow(r: FeaturedRow, z: int): MeltedRow
    requires 0 <= z < |Zones|
  {
    MeltedRow(r.row.datetime, r.row.record.ontarioDemand, r.features, Zones[z], r.row.record.zoneDemand[z])
  }

  function ZoneBlock(table: seq<FeaturedRow>, z: int): seq<MeltedRow>
    requires 0 <= z < |Zones|
  {
    seq(|table|, i requires 0 <= i < |table| => MeltRow(table[i], z))
  }

  /** The blocks of zones z, z + 1, ... stacked one after another, as `melt` stacks its value columns. */
  function MeltFrom(table: seq<FeaturedRow>, z: int): seq<MeltedRow>
    requires 0 <= z <= |Zones|
    decreases |Zones| - z
  {
    if z == |Zones| then [] else ZoneBlock(table, z) + MeltFrom(table, z + 1)
  }

  lemma {:induction false} MeltFromLength(table: seq<FeaturedRow>, z: int)
    requires 0 <= z <= |Zones|
    ensures |MeltFrom(table, z)| == (|Zones| - z) * |table|
    decreases |Zones| - z
  {
    if z < |Zones| {
      MeltFromLength(table, z + 1);
      assert (|Zones| - z) * |table| == (|Zones| - (z + 1)) * |table| + |table|;
    }
  }

  /** Where row i of zone y's block starts within MeltFrom(table, z), counted block by block. */
  function BlockOffset(z: int, y: int, n: int, i: int): int
    requires z <= y
    decreases y - z
  {
    if y == z then i else n + BlockOffset(z + 1, y, n, i)
  }

  lemma {:induction false} BlockOffsetIsProduct(z: int, y: int, n: int, i: int)
    requires z <= y
    ensures BlockOffset(z, y, n, i) == (y - z) * n + i
    decreases y - z
  {
    if y > z {
      BlockOffsetIsProduct(z + 1, y, n, i);
      assert (y - z) * n == (y - (z + 1)) * n + n;
    }
  }

  lemma {:induction false} MeltFromAt(table: seq<FeaturedRow>, z: int, y: int, i: int)
    requires 0 <= z <= y < |Zones| && 0 <= i < |table|
    ensures 0 <= BlockOffset(z, y, |table|, i) < |MeltFrom(table, z)|
    ensures MeltFrom(table, z)[BlockOffset(z, y, |table|, i)] == MeltRow(table[i], y)
    decreases y - z
  {
    var n := |table|;
    var block := ZoneBlock(table, z);
    var rest := MeltFrom(table, z + 1);
    assert |block| == n;
    assert MeltFrom(table, z) == block + rest;
    if y > z {
      MeltFromAt(table, z + 1, y, i);
      var p := BlockOffset(z + 1, y, n, i);
      assert BlockOffset(z, y, n, i) == n + p;
      assert (block + rest)[n + p] == rest[p];
    } else {
      assert BlockOffset(z, y, n, i) == i;
      assert (block + rest)[i] == block[i];
    }
  }

  /**
   * `demand_df.melt(...)`: rows × 10 rows; row z * rows + i is demand row i
   * seen through zone z, carrying its datetime, Ontario Demand and calendar
   * columns, the zone name and that zone's column.
   */
  function Melt(table: seq<FeaturedRow>): (r: seq<MeltedRow>)
    ensures |r| == |table| * |Zones|
    ensures forall z, i :: 0 <= z < |Zones| && 0 <= i < |table| ==> r[z * |table| + i] == MeltRow(table[i], z)
  {
    MeltFromLength(table, 0);
    forall z, i | 0 <= z < |Zones| && 0 <= i < |table|
      ensures z * |table| + i < |MeltFrom(table, 0)| && MeltFrom(table, 0)[z * |table| + i] == MeltRow(table[i], z)
    {
      MeltIndex(table, z, i);
    }
    MeltFrom(table, 0)
  }

  lemma MeltIndex(table: seq<FeaturedRow>, z: int, i: int)
    requires 0 <= z < |Zones| && 0 <= i < |table|
    ensures 0 <= z * |table| + i < |MeltFrom(table, 0)|
    ensures MeltFrom(table, 0)[z * |table| + i] == MeltRow(table[i], z)
  {
    var n := |table|;
    BlockOffsetIsProduct(0, z, n, i);
    var p := BlockOffset(0, z, n, i);
    assert p == z * n + i;
    MeltFromAt(table, 0, z, i);
  }

  /** A merged row; `climate` is `None` where no climate row matched, every climate column NaN. */
  datatype MergedRow = MergedRow(
    datetime: Timestamp, region: string, ontarioDemand: Value, features: TimeFeatures,
    zonalDemand: Value, climate: Option<seq<Value>>)

  function WithClimate(m: MeltedRow, climate: Option<seq<Value>>): MergedRow {
    MergedRow(m.datetime, m.region, m.ontarioDemand, m.features, m.zonalDemand, climate)
  }

  /** The demand-side columns of a merged row. */
  function DemandSide(r: MergedRow): MeltedRow {
    MeltedRow(r.datetime, r.ontarioDemand, r.features, r.region, r.zonalDemand)
  }

  predicate SameKey(m: MeltedRow, c: ClimateRow) {
    c.datetime == m.datetime && c.region == m.region
  }

  function Matches(m: MeltedRow, climate: seq<ClimateRow>): seq<ClimateRow> {
    Filter(climate, (c: ClimateRow) => SameKey(m, c))
  }

  /**
   * The rows a left join makes of m: one per matching climate row, or one
   * unfilled row. There is at least one, each carries m, and the first
   * lacks climate exactly when no climate row has m's key.
   */
  function JoinRow(m: MeltedRow, climate: seq<ClimateRow>): (rows: seq<MergedRow>)
    ensures |rows| >= 1
    ensures forall k :: 0 <= k < |rows| ==> DemandSide(rows[k]) == m
    ensures rows[0].climate.None? <==> forall c :: c in climate ==> !SameKey(m, c)
  {
    var ms := Matches(m, climate);
    NoMatchesIffNoKey(m, climate);
    if ms == [] then [WithClimate(m, None)]
    else seq(|ms|, k requires 0 <= k < |ms| => WithClimate(m, Some(ms[k].measurements)))
  }

  /**
   * `pd.merge(left, climate, on=['datetime', 'region'], how='left')`, in
   * left order: at least one row per left row, and every row made of a
   * left row.
   */
  function LeftJoin(left: seq<MeltedRow>, climate: seq<ClimateRow>): (r: seq<MergedRow>)
    ensures |r| >= |left|
    ensures forall j :: 0 <= j < |r| ==> exists i :: 0 <= i < |left| && DemandSide(r[j]) == left[i]
  {
    var blocks := seq(|left|, i requires 0 <= i < |left| => JoinRow(left[i], climate));
    JoinedRowsFromLeft(left, climate, blocks);
    Flatten(blocks)
  }

  lemma JoinedRowsFromLeft(left: seq<MeltedRow>, climate: seq<ClimateRow>, blocks: seq<seq<MergedRow>>)
    requires blocks == seq(|left|, i requires 0 <= i < |left| => JoinRow(left[i], climate))
    ensures |Flatten(blocks)| >= |left|
    ensures forall j :: 0 <= j < |Flatten(blocks)| ==> exists i :: 0 <= i < |left| && DemandSide(Flatten(blocks)[j]) == left[i]
  {
    TotalRowsOfNonEmpty(blocks);
    forall j | 0 <= j < |Flatten(blocks)| ensures exists i :: 0 <= i < |left| && DemandSide(Flatten(blocks)[j]) == left[i] {
      var k := FlattenSource(blocks, Flatten(blocks)[j]);
      var q :| 0 <= q < |blocks[k]| && blocks[k][q] == Flatten(blocks)[j];
      assert DemandSide(blocks[k][q]) == left[k];
    }
  }

  /** m has no matches exactly when no climate row has its key. */
  lemma NoMatchesIffNoKey(m: MeltedRow, climate: seq<ClimateRow>)
    ensures Matches(m, climate) == [] <==> forall c :: c in climate ==> !SameKey(m, c)
  {
    var keep := (c: ClimateRow) => SameKey(m, c);
    FilterSelects(climate, keep);
    var ix := KeptIndices(climate, keep);
    if Matches(m, climate) == [] {
      forall c | c in climate ensures !SameKey(m, c) {
        var i :| 0 <= i < |climate| && climate[i] == c;
        assert i !in ix;
      }
    } else {
      assert Matches(m, climate)[0] == climate[ix[0]];
    }
  }

  /** Every match of m is a climate row with m's key. */
  lemma MatchHasKey(m: MeltedRow, climate: seq<ClimateRow>, k: int)
    requires 0 <= k < |Matches(m, climate)|
    ensures Matches(m, climate)[k] in climate && SameKey(m, Matches(m, climate)[k])
  {
    var keep := (c: ClimateRow) => SameKey(m, c);
    FilterSelects(climate, keep);
    var ix := KeptIndices(climate, keep);
    assert Matches(m, climate)[k] == climate[ix[k]];
    assert ix[k] in ix;
  }

  /** A merged row carries climate values only from a climate row with its key, and none only when there is none. */
  lemma JoinRowClimate(m: MeltedRow, climate: seq<ClimateRow>, r: MergedRow)
    requires r in JoinRow(m, climate)
    ensures DemandSide(r) == m
    ensures r.climate.None? <==> forall c :: c in climate ==> !SameKey(m, c)
    ensures r.climate.Some? ==> exists c :: c in climate && SameKey(m, c) && c.measurements == r.climate.value
  {
    var ms := Matches(m, climate);
    NoMatchesIffNoKey(m, climate);
    if ms != [] {
      var k :| 0 <= k < |ms| && r == WithClimate(m, Some(ms[k].measurements));
      MatchHasKey(m, climate, k);
    }
  }

  /** Keys of the climate table are unique. */
  predicate UniqueKeys(climate: seq<ClimateRow>) {
    forall i, j :: 0 <= i < j < |climate| ==>
      climate[i].datetime != climate[j].datetime || climate[i].region != climate[j].region
  }

  /** With unique keys, at most one climate row has the key of m. */
  lemma {:induction false} AtMostOneMatch(m: MeltedRow, climate: seq<ClimateRow>)
    requires UniqueKeys(climate)
    ensures |Matches(m, climate)| <= 1
  {
    if climate != [] {
      var rest := climate[1..];
      assert UniqueKeys(rest) by {
        forall i, j | 0 <= i < j < |rest|
          ensures rest[i].datetime != rest[j].datetime || rest[i].region != rest[j].region
        {
          assert rest[i] == climate[i + 1] && rest[j] == climate[j + 1];
        }
      }
      AtMostOneMatch(m, rest);
      if SameKey(m, climate[0]) {
        forall x | x in rest ensures !SameKey(m, x) {
          var j :| 0 <= j < |rest| && rest[j] == x;
          assert climate[j + 1] == x;
        }
        FilterNothingKept(rest, (c: ClimateRow) => SameKey(m, c));
      }
    }
  }

  lemma OneJoinedRow(m: MeltedRow, climate: seq<ClimateRow>)
    requires UniqueKeys(climate)
    ensures |JoinRow(m, climate)| == 1
  {
    AtMostOneMatch(m, climate);
  }

  /** The left join keeps every left row: each one underlies some merged row. */
  lemma LeftJoinKeepsEveryRow(left: seq<MeltedRow>, climate: seq<ClimateRow>, i: int)
    requires 0 <= i < |left|
    ensures exists r :: r in LeftJoin(left, climate) && DemandSide(r) == left[i]
  {
    var blocks := seq(|left|, i requires 0 <= i < |left| => JoinRow(left[i], climate));
    var r := blocks[i][0];
    JoinRowClimate(left[i], climate, r);
    FlattenContains(blocks, i, r);
  }

  /**
   * With unique climate keys the left join is row for row: merged row i is
   * left row i, with the climate values of the row holding its key, or with
   * none when no climate row holds it.
   */
  lemma LeftJoinRowForRow(left: seq<MeltedRow>, climate: seq<ClimateRow>)
    requires UniqueKeys(climate)
    ensures |LeftJoin(left, climate)| == |left|
    ensures forall i :: 0 <= i < |left| ==>
      var r := LeftJoin(left, climate)[i];
      && DemandSide(r) == left[i]
      && (r.climate.None? <==> forall c :: c in climate ==> !SameKey(left[i], c))
      && (r.climate.Some? ==> exists c :: c in climate && SameKey(left[i], c) && c.measurements == r.climate.value)
  {
    var blocks := seq(|left|, i requires 0 <= i < |left| => JoinRow(left[i], climate));
    forall k | 0 <= k < |blocks| ensures |blocks[k]| == 1 {
      OneJoinedRow(left[k], climate);
    }
    FlattenSingletons(blocks);
    forall i | 0 <= i < |left|
      ensures var r := LeftJoin(left, climate)[i];
        && DemandSide(r) == left[i]
        && (r.climate.None? <==> forall c :: c in climate ==> !SameKey(left[i], c))
        && (r.climate.Some? ==> exists c :: c in climate && SameKey(left[i], c) && c.measurements == r.climate.value)
    {
      JoinRowClimate(left[i], climate, blocks[i][0]);
    }
  }

  lemma LeftJoinSize(left: seq<MeltedRow>, climate: seq<ClimateRow>)
    ensures UniqueKeys(climate) ==> |LeftJoin(left, climate)| == |left|
  {
    if UniqueKeys(climate) {
      LeftJoinRowForRow(left, climate);
    }
  }

  predicate MergedByKey(a: MergedRow, b: MergedRow) {
    KeyLe(a.datetime, a.region, b.datetime, b.region)
  }

  lemma MergedByKeyIsTotalPreorder()
    ensures IsTotalPreorder(MergedByKey)
  {
    forall a: MergedRow, b: MergedRow ensures MergedByKey(a, b) || MergedByKey(b, a) {
      KeyLeTotal(a.datetime, a.region, b.datetime, b.region);
    }
    forall a: MergedRow, b: MergedRow, c: MergedRow | MergedByKey(a, b) && MergedByKey(b, c)
      ensures MergedByKey(a, c)
    {
      KeyLeTransitive(a.datetime, a.region, b.datetime, b.region, c.datetime, c.region);
    }
  }

  /**
   * `merge_demand_climate`: the rows of the left join of the melted demand
   * table with the climate table, sorted by (datetime, region); with unique
   * climate keys there are exactly rows × 10 of them.
   */
  function MergeDemandClimate(demand: seq<FeaturedRow>, climate: seq<ClimateRow>): (r: seq<MergedRow>)
    ensures SortedBy(r, MergedByKey)
    ensures multiset(r) == multiset(LeftJoin(Melt(demand), climate))
    ensures UniqueKeys(climate) ==> |r| == |demand| * |Zones|
  {
    MergedByKeyIsTotalPreorder();
    var joined := LeftJoin(Melt(demand), climate);
    LeftJoinSize(Melt(demand), climate);
    var r := SortBy(joined, MergedByKey);
    assert |r| == |multiset(r)| == |multiset(joined)| == |joined|;
    r
  }
}
