/**
 * Tables as sequences of rows: concatenation (`pd.concat`), sorting by a key
 * order (`sort_values`, `sort_index`) and row filtering (`dropna`).
 */
module Tables {
  import opened Wrappers

  /** A numeric cell; `None` where pandas holds NaN. */
  type Value = Option<int>

  /** `le` orders rows by a key: any two rows compare, and the order is transitive. */
  ghost predicate IsTotalPreorder<T(!new)>(le: (T, T) -> bool) {
    && (forall a, b :: le(a, b) || le(b, a))
    && (forall a, b, c :: le(a, b) && le(b, c) ==> le(a, c))
  }

  predicate SortedBy<T>(s: seq<T>, le: (T, T) -> bool) {
    forall i, j :: 0 <= i < j < |s| ==> le(s[i], s[j])
  }

  /** `pd.concat` of a list of tables: their rows one table after another. */
  function Flatten<T>(tables: seq<seq<T>>): (r: seq<T>)
    ensures |r| == TotalRows(tables)
  {
    if tables == [] then [] else tables[0] + Flatten(tables[1..])
  }

  function TotalRows<T>(tables: seq<seq<T>>): nat {
    if tables == [] then 0 else |tables[0]| + TotalRows(tables[1..])
  }

  /** Every row of the concatenation comes from one of the tables... */
  lemma {:induction false} FlattenSource<T>(tables: seq<seq<T>>, x: T) returns (k: nat)
    requires x in Flatten(tables)
    ensures k < |tables| && x in tables[k]
  {
    if x in tables[0] {
      k := 0;
    } else {
      var k' := FlattenSource(tables[1..], x);
      k := k' + 1;
    }
  }

  /** ...and every row of every table is in it. */
  lemma {:induction false} FlattenContains<T>(tables: seq<seq<T>>, k: nat, x: T)
    requires k < |tables| && x in tables[k]
    ensures x in Flatten(tables)
  {
    if k > 0 {
      FlattenContains(tables[1..], k - 1, x);
    }
  }

  /** All rows of all parts, with their multiplicities. */
  function Rows<T>(tables: seq<seq<T>>): multiset<T> {
    if tables == [] then multiset{} else multiset(tables[0]) + Rows(tables[1..])
  }

  /** The concatenation holds every part's rows, each as often as all parts together. */
  lemma {:induction false} FlattenMultiset<T>(tables: seq<seq<T>>)
    ensures multiset(Flatten(tables)) == Rows(tables)
  {
    if tables != [] {
      FlattenMultiset(tables[1..]);
      assert Flatten(tables) == tables[0] + Flatten(tables[1..]);
    }
  }

  /** Concatenating non-empty tables gives at least one row per table. */
  lemma {:induction false} TotalRowsOfNonEmpty<T>(tables: seq<seq<T>>)
    requires forall k :: 0 <= k < |tables| ==> |tables[k]| >= 1
    ensures TotalRows(tables) >= |tables|
  {
    if tables != [] {
      assert forall k :: 0 <= k < |tables[1..]| ==> tables[1..][k] == tables[k + 1];
      TotalRowsOfNonEmpty(tables[1..]);
    }
  }

  /** Concatenating one-row tables lists their rows in order. */
  lemma {:induction false} FlattenSingletons<T>(tables: seq<seq<T>>)
    requires forall k :: 0 <= k < |tables| ==> |tables[k]| == 1
    ensures |Flatten(tables)| == |tables|
    ensures forall i :: 0 <= i < |tables| ==> Flatten(tables)[i] == tables[i][0]
  {
    if tables != [] {
      FlattenSingletons(tables[1..]);
      assert forall i :: 1 <= i < |tables| ==> tables[1..][i - 1] == tables[i];
    }
  }

  /**
   * Places x after every row it is not below: in front of the first row
   * that exceeds it, so rows equal to x keep their place ahead of it.
   */
  function InsertBy<T(!new)>(x: T, s: seq<T>, le: (T, T) -> bool): (r: seq<T>)
    requires IsTotalPreorder(le) && SortedBy(s, le)
    ensures SortedBy(r, le)
    ensures multiset(r) == multiset(s) + multiset{x}
  {
    if s == [] then [x]
    else if !le(s[0], x) then
      assert forall j :: 0 <= j < |s| ==> le(x, s[j]) by {
        forall j | 0 <= j < |s| ensures le(x, s[j]) {
          if j > 0 { assert le(s[0], s[j]); }
        }
      }
      [x] + s
    else
      var rest := InsertBy(x, s[1..], le);
      assert s == [s[0]] + s[1..];
      HeadBelowInsert(x, s, le, rest);
      [s[0]] + rest
  }

  lemma HeadBelowInsert<T(!new)>(x: T, s: seq<T>, le: (T, T) -> bool, rest: seq<T>)
    requires IsTotalPreorder(le) && SortedBy(s, le) && s != [] && le(s[0], x)
    requires SortedBy(rest, le) && multiset(rest) == multiset(s[1..]) + multiset{x}
    ensures SortedBy([s[0]] + rest, le)
  {
    forall j | 0 <= j < |rest| ensures le(s[0], rest[j]) {
      assert rest[j] in multiset(rest);
      if rest[j] != x {
        assert rest[j] in multiset(s[1..]);
        var k :| 0 <= k < |s[1..]| && s[1..][k] == rest[j];
        assert s[k + 1] == rest[j];
      }
    }
    var r := [s[0]] + rest;
    forall i, j | 0 <= i < j < |r| ensures le(r[i], r[j]) {
      if i == 0 { assert r[j] == rest[j - 1]; } else { assert r[i] == rest[i - 1] && r[j] == rest[j - 1]; }
    }
  }

  /** Insertion sort: the rows in ascending key order. */
  function SortBy<T(!new)>(s: seq<T>, le: (T, T) -> bool): (r: seq<T>)
    requires IsTotalPreorder(le)
    ensures SortedBy(r, le)
    ensures multiset(r) == multiset(s)
  {
    if s == [] then []
    else
      assert s == s[..|s| - 1] + [s[|s| - 1]];
      InsertBy(s[|s| - 1], SortBy(s[..|s| - 1], le), le)
  }

  function Min(a: nat, b: nat): nat {
    if a <= b then a else b
  }

  /** The rows of s that satisfy keep, in their original order (`df[mask]`). */
  function Filter<T>(s: seq<T>, keep: T -> bool): (r: seq<T>)
    ensures |r| <= |s|
  {
    if s == [] then [] else (if keep(s[0]) then [s[0]] else []) + Filter(s[1..], keep)
  }

  lemma FilterNothingKept<T>(s: seq<T>, keep: T -> bool)
    requires forall x :: x in s ==> !keep(x)
    ensures Filter(s, keep) == []
  {
    if s != [] {
      FilterNothingKept(s[1..], keep);
    }
  }

  /** The positions from i on whose rows satisfy keep, ascending. */
  function KeptFrom<T>(s: seq<T>, keep: T -> bool, i: nat): seq<nat>
    requires i <= |s|
    decreases |s| - i
  {
    if i == |s| then [] else (if keep(s[i]) then [i] else []) + KeptFrom(s, keep, i + 1)
  }

  /** The positions of the rows of s that satisfy keep, ascending. */
  function KeptIndices<T>(s: seq<T>, keep: T -> bool): seq<nat> {
    KeptFrom(s, keep, 0)
  }

  predicate StrictlyIncreasing(ix: seq<nat>) {
    forall a, b :: 0 <= a < b < |ix| ==> ix[a] < ix[b]
  }

  /** The positions KeptFrom lists lie in [i, |s|) and ascend. */
  lemma {:induction false} KeptFromOrdered<T>(s: seq<T>, keep: T -> bool, i: nat)
    requires i <= |s|
    ensures var ix := KeptFrom(s, keep, i);
      && (forall j :: 0 <= j < |ix| ==> i <= ix[j] < |s|)
      && StrictlyIncreasing(ix)
    decreases |s| - i
  {
    if i < |s| {
      KeptFromOrdered(s, keep, i + 1);
      var rest := KeptFrom(s, keep, i + 1);
      if keep(s[i]) {
        var ix := [i] + rest;
        forall a, b | 0 <= a < b < |ix| ensures ix[a] < ix[b] {
          assert ix[b] == rest[b - 1];
          if a > 0 { assert ix[a] == rest[a - 1]; }
        }
      }
    }
  }

  /** KeptFrom lists exactly the positions from i on whose rows satisfy keep. */
  lemma {:induction false} KeptFromMembers<T>(s: seq<T>, keep: T -> bool, i: nat)
    requires i <= |s|
    ensures forall k :: k in KeptFrom(s, keep, i) <==> i <= k < |s| && keep(s[k])
    decreases |s| - i
  {
    if i < |s| {
      KeptFromMembers(s, keep, i + 1);
    }
  }

  /** Filter on s[i..] picks the rows at the positions KeptFrom lists. */
  lemma {:induction false} FilterAtKept<T>(s: seq<T>, keep: T -> bool, i: nat)
    requires i <= |s|
    ensures var ix := KeptFrom(s, keep, i);
      && |Filter(s[i..], keep)| == |ix|
      && forall j :: 0 <= j < |ix| ==> 0 <= ix[j] < |s| && Filter(s[i..], keep)[j] == s[ix[j]]
    decreases |s| - i
  {
    KeptFromOrdered(s, keep, i);
    if i < |s| {
      FilterAtKept(s, keep, i + 1);
      var rest := KeptFrom(s, keep, i + 1);
      var tail := Filter(s[i + 1..], keep);
      assert s[i..][0] == s[i] && s[i..][1..] == s[i + 1..];
      assert Filter(s[i..], keep) == (if keep(s[i]) then [s[i]] else []) + tail;
      if keep(s[i]) {
        var ix := [i] + rest;
        forall j | 0 <= j < |ix| ensures Filter(s[i..], keep)[j] == s[ix[j]] {
          if j > 0 { assert ix[j] == rest[j - 1]; }
        }
      }
    }
  }

  lemma FilterSelectsFrom<T>(s: seq<T>, keep: T -> bool, i: nat)
    requires i <= |s|
    ensures var ix := KeptFrom(s, keep, i);
      && |Filter(s[i..], keep)| == |ix|
      && StrictlyIncreasing(ix)
      && (forall j :: 0 <= j < |ix| ==> i <= ix[j] < |s| && Filter(s[i..], keep)[j] == s[ix[j]])
      && (forall k :: k in ix <==> i <= k < |s| && keep(s[k]))
  {
    KeptFromOrdered(s, keep, i);
    KeptFromMembers(s, keep, i);
    FilterAtKept(s, keep, i);
  }

  /**
   * Filter keeps exactly the rows that satisfy keep, in their original
   * relative order: its j-th row is row ix[j] of s, ix ascends, and ix holds
   * every position whose row satisfies keep and no other.
   */
  lemma FilterSelects<T>(s: seq<T>, keep: T -> bool)
    ensures var ix := KeptIndices(s, keep);
      && |Filter(s, keep)| == |ix|
      && StrictlyIncreasing(ix)
      && (forall j :: 0 <= j < |ix| ==> ix[j] < |s| && Filter(s, keep)[j] == s[ix[j]])
      && (forall i :: i in ix <==> 0 <= i < |s| && keep(s[i]))
  {
    FilterSelectsFrom(s, keep, 0);
    assert s[0..] == s;
  }

  /** When keep fails on the first m rows and holds on the rest, Filter drops exactly that prefix. */
  lemma {:induction false} FilterDropsPrefix<T>(s: seq<T>, keep: T -> bool, m: nat)
    requires m <= |s|
    requires forall i :: 0 <= i < m ==> !keep(s[i])
    requires forall i :: m <= i < |s| ==> keep(s[i])
    ensures Filter(s, keep) == s[m..]
    decreases |s|
  {
    if s != [] {
      FilterDropsPrefix(s[1..], keep, if m == 0 then 0 else m - 1);
      if m == 0 {
        assert s == [s[0]] + s[1..];
      } else {
        assert s[m..] == s[1..][m - 1..];
      }
    }
  }
}
