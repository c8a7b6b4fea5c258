/**
 * `create_lag_features`: one column per lag k holding the target column
 * shifted down by k positions, then every row with a missing lag dropped.
 */
module Lags {
  import opened Wrappers
  import opened Tables

  /** A row with its lag columns, in the order of the requested lags. */
  datatype Lagged<R> = Lagged(row: R, lagValues: seq<Value>)

  function Nones(n: nat): seq<Value> {
    seq(n, _ => None)
  }

  /**
   * `Series.shift(k)`: k missing cells in front and the last k values gone
   * (for negative k, the other way round).
   */
  function Shift(values: seq<Value>, k: int): (r: seq<Value>)
    ensures |r| == |values|
    ensures forall i :: 0 <= i < |r| ==> r[i] == if 0 <= i - k < |values| then values[i - k] else None
  {
    var n := |values|;
    if k >= 0 then
      var m := Min(k, n);
      Nones(m) + values[..n - m]
    else
      var m := Min(-k, n);
      values[m..] + Nones(m)
  }

  /** The target column's value k positions before row i, or missing off either end of the table. */
  function LagAt<R>(table: seq<R>, target: R -> Value, i: int, k: int): Value {
    if 0 <= i - k < |table| then target(table[i - k]) else None
  }

  /** The target column, `df[target_col]`. */
  function TargetColumn<R>(table: seq<R>, target: R -> Value): seq<Value> {
    seq(|table|, i requires 0 <= i < |table| => target(table[i]))
  }

  /**
   * The table after the loop over `lags`: each row unchanged, with one lag
   * column per lag; column c is the target column shifted by lags[c].
   */
  function WithLagColumns<R>(table: seq<R>, target: R -> Value, lags: seq<int>): (w: seq<Lagged<R>>)
    ensures |w| == |table|
    ensures forall i :: 0 <= i < |w| ==> w[i].row == table[i] && |w[i].lagValues| == |lags|
    ensures forall i, c :: 0 <= i < |w| && 0 <= c < |lags| ==>
      w[i].lagValues[c] == Shift(TargetColumn(table, target), lags[c])[i]
  {
    seq(|table|, i requires 0 <= i < |table| =>
      Lagged(table[i], seq(|lags|, c requires 0 <= c < |lags| => LagAt(table, target, i, lags[c]))))
  }

  /** No lag column of the row is missing (`dropna(subset=...)` keeps it). */
  predicate Complete<R>(r: Lagged<R>) {
    forall c :: 0 <= c < |r.lagValues| ==> r.lagValues[c].Some?
  }

  /**
   * `create_lag_features(df, target_col, lags)`: the rows whose lag columns
   * are all present, in table order.
   */
  method CreateLagFeatures<R>(table: seq<R>, target: R -> Value, lags: seq<int>) returns (out: seq<Lagged<R>>)
    ensures out == Filter(WithLagColumns(table, target, lags), (r: Lagged<R>) => Complete(r))
  {
    var targets := TargetColumn(table, target);
    var columns: seq<seq<Value>> := [];
    var j := 0;
    while j < |lags|
      invariant 0 <= j <= |lags|
      invariant |columns| == j
      invariant forall c :: 0 <= c < j ==> |columns[c]| == |table|
      invariant forall c, i :: 0 <= c < j && 0 <= i < |table| ==> columns[c][i] == LagAt(table, target, i, lags[c])
    {
      columns := columns + [Shift(targets, lags[j])];
      j := j + 1;
    }
    var withLags := seq(|table|, i requires 0 <= i < |table| =>
      Lagged(table[i], seq(|lags|, c requires 0 <= c < |lags| => columns[c][i])));
    forall i | 0 <= i < |table| ensures withLags[i] == WithLagColumns(table, target, lags)[i] {
      assert withLags[i].lagValues == WithLagColumns(table, target, lags)[i].lagValues;
    }
    assert withLags == WithLagColumns(table, target, lags);
    out := Filter(withLags, (r: Lagged<R>) => Complete(r));
  }

  /** Every lag of position i reaches back into the table, to a present target value. */
  predicate AllLagsPresent<R>(table: seq<R>, target: R -> Value, lags: seq<int>, i: int) {
    forall c :: 0 <= c < |lags| ==> 0 <= i - lags[c] < |table| && target(table[i - lags[c]]).Some?
  }

  /**
   * What the lag builder returns: rows ix[0] < ix[1] < ... of the table,
   * where ix holds exactly the positions all of whose lags are present;
   * output row j is table row ix[j], and its column for lag k holds the
   * target of table row ix[j] - k.
   */
  lemma LagFeaturesSelect<R>(table: seq<R>, target: R -> Value, lags: seq<int>)
    ensures var out := Filter(WithLagColumns(table, target, lags), (r: Lagged<R>) => Complete(r));
      var ix := KeptIndices(WithLagColumns(table, target, lags), (r: Lagged<R>) => Complete(r));
      && |out| == |ix|
      && StrictlyIncreasing(ix)
      && (forall i :: i in ix <==> 0 <= i < |table| && AllLagsPresent(table, target, lags, i))
      && (forall j :: 0 <= j < |out| ==>
            && ix[j] < |table|
            && out[j].row == table[ix[j]]
            && AllLagsPresent(table, target, lags, ix[j])
            && |out[j].lagValues| == |lags|
            && (forall c :: 0 <= c < |lags| ==> out[j].lagValues[c] == target(table[ix[j] - lags[c]])))
  {
    var keep := (r: Lagged<R>) => Complete(r);
    var w := WithLagColumns(table, target, lags);
    FilterSelects(w, keep);
    forall i | 0 <= i < |table| ensures keep(w[i]) <==> AllLagsPresent(table, target, lags, i) {
      CompleteIffAllLagsPresent(table, target, lags, i);
    }
    var out := Filter(w, keep);
    var ix := KeptIndices(w, keep);
    forall j, c | 0 <= j < |out| && 0 <= c < |lags| && AllLagsPresent(table, target, lags, ix[j])
      ensures out[j].lagValues[c] == target(table[ix[j] - lags[c]])
    {
      assert out[j] == w[ix[j]];
    }
  }

  /** A row keeps every lag exactly when each lag reaches a present target. */
  lemma CompleteIffAllLagsPresent<R>(table: seq<R>, target: R -> Value, lags: seq<int>, i: int)
    requires 0 <= i < |table|
    ensures Complete(WithLagColumns(table, target, lags)[i]) <==> AllLagsPresent(table, target, lags, i)
  {
    var row := WithLagColumns(table, target, lags)[i];
    assert row.lagValues == seq(|lags|, c requires 0 <= c < |lags| => LagAt(table, target, i, lags[c]));
    if Complete(row) {
      forall c | 0 <= c < |lags| ensures 0 <= i - lags[c] < |table| && target(table[i - lags[c]]).Some? {
        assert row.lagValues[c] == LagAt(table, target, i, lags[c]);
      }
    } else {
      var c :| 0 <= c < |lags| && row.lagValues[c].None?;
      assert row.lagValues[c] == LagAt(table, target, i, lags[c]);
    }
  }

  /** The largest lag, or 0 for none. */
  function MaxLag(lags: seq<int>): (m: int)
    ensures forall c :: 0 <= c < |lags| ==> lags[c] <= m
    ensures lags != [] ==> exists c :: 0 <= c < |lags| && lags[c] == m
  {
    if lags == [] then 0
    else
      var rest := MaxLag(lags[1..]);
      if lags[1..] == [] || lags[0] >= rest then lags[0] else rest
  }

  /**
   * The leading stretch of n rows (or hours) that lies less than max(lags)
   * from the start: the whole of it when max(lags) exceeds n.
   */
  function WarmUp(lags: seq<int>, n: nat): (m: nat)
    requires forall c :: 0 <= c < |lags| ==> lags[c] >= 0
    ensures m <= n && m <= MaxLag(lags)
    ensures m == n || m == MaxLag(lags)
  {
    if MaxLag(lags) <= n then MaxLag(lags) else n
  }

  /**
   * With no missing target values and non-negative lags, the builder
   * drops exactly the first max(lags) rows and keeps the rest.
   */
  lemma NoMissingTargetsDropsPrefix<R>(table: seq<R>, target: R -> Value, lags: seq<int>)
    requires forall i :: 0 <= i < |table| ==> target(table[i]).Some?
    requires forall c :: 0 <= c < |lags| ==> lags[c] >= 0
    ensures Filter(WithLagColumns(table, target, lags), (r: Lagged<R>) => Complete(r))
      == WithLagColumns(table, target, lags)[WarmUp(lags, |table|)..]
  {
    var keep := (r: Lagged<R>) => Complete(r);
    var w := WithLagColumns(table, target, lags);
    var m := WarmUp(lags, |table|);
    forall i | 0 <= i < |table| ensures keep(w[i]) <==> m <= i {
      CompleteIffPastMaxLag(table, target, lags, i);
    }
    FilterDropsPrefix(w, keep, m);
  }

  /** With no missing targets, row i has every lag exactly when it is at least max(lags) rows in. */
  lemma CompleteIffPastMaxLag<R>(table: seq<R>, target: R -> Value, lags: seq<int>, i: int)
    requires forall j :: 0 <= j < |table| ==> target(table[j]).Some?
    requires forall c :: 0 <= c < |lags| ==> lags[c] >= 0
    requires 0 <= i < |table|
    ensures Complete(WithLagColumns(table, target, lags)[i]) <==> MaxLag(lags) <= i
  {
    var row := WithLagColumns(table, target, lags)[i];
    if MaxLag(lags) <= i {
      forall c | 0 <= c < |lags| ensures row.lagValues[c].Some? {
        assert 0 <= i - lags[c] < |table|;
      }
    } else {
      var top :| 0 <= top < |lags| && lags[top] == MaxLag(lags);
      assert row.lagValues[top] == None;
    }
  }
}
