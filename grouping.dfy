/**
 * The two grouped reductions the CPS derivations use: `groupby(key).sum()`
 * and `groupby(key).first()`. Each is computed as one pass over the rows that
 * folds every row into a map from group key to result row, the way a hash
 * aggregation works. Each is specified against a reference definition that
 * does not fold: `KeySet` (the distinct keys), `GroupTotal` (a group's total
 * of one column) and `FirstIndex` (where a group's first member stands).
 */
module Grouping {
  import opened Frames

  /** Every row carries every column of `cols`. */
  predicate HasColumns(rows: seq<Row>, cols: set<Column>) {
    forall i :: 0 <= i < |rows| ==> cols <= rows[i].Keys
  }

  /** Every aggregated row has exactly the columns `cols`. */
  predicate Shaped(acc: map<int, Row>, cols: set<Column>) {
    forall k :: k in acc ==> acc[k].Keys == cols
  }

  /** The distinct values of column `key`. */
  function KeySet(rows: seq<Row>, key: Column): (ks: set<int>)
    requires HasColumns(rows, {key})
  {
    set i | 0 <= i < |rows| :: rows[i][key]
  }

  /** The total of column `c` over the rows whose `key` is `k`. */
  function GroupTotal(rows: seq<Row>, key: Column, k: int, c: Column): (total: int)
    requires HasColumns(rows, {key, c})
  {
    if rows == [] then 0
    else (if rows[0][key] == k then rows[0][c] else 0) + GroupTotal(rows[1..], key, k, c)
  }

  /** The position of the first row, in input order, whose `key` is `k`. */
  function FirstIndex(rows: seq<Row>, key: Column, k: int): (i: nat)
    requires HasColumns(rows, {key}) && k in KeySet(rows, key)
    ensures i < |rows| && rows[i][key] == k
    ensures forall j :: 0 <= j < i ==> rows[j][key] != k
  {
    if rows[0][key] == k then 0
    else
      KeySetTail(rows, key);
      1 + FirstIndex(rows[1..], key, k)
  }

  lemma KeySetTail(rows: seq<Row>, key: Column)
    requires rows != [] && HasColumns(rows, {key})
    ensures HasColumns(rows[1..], {key})
    ensures KeySet(rows, key) == {rows[0][key]} + KeySet(rows[1..], key)
  {
    var tail := rows[1..];
    forall x | x in KeySet(rows, key) ensures x in {rows[0][key]} + KeySet(tail, key) {
      var i :| 0 <= i < |rows| && rows[i][key] == x;
      if i > 0 {
        assert tail[i - 1] == rows[i];
      }
    }
    forall x | x in KeySet(tail, key) ensures x in KeySet(rows, key) {
      var i :| 0 <= i < |tail| && tail[i][key] == x;
      assert rows[i + 1] == tail[i];
    }
  }

  // ---------------------------------------------------------------------------
  // groupby(key).sum()
  // ---------------------------------------------------------------------------

  /** Each row of `g` holds, in every column of `cols`, its group's total over
      `rows`. */
  predicate GroupTotals(g: map<int, Row>, rows: seq<Row>, key: Column, cols: set<Column>)
    requires HasColumns(rows, {key} + cols)
  {
    forall k, c :: k in g && c in cols ==> c in g[k] && g[k][c] == GroupTotal(rows, key, k, c)
  }

  /** Adds one row into the running per-group totals. */
  function SumInto(acc: map<int, Row>, r: Row, key: Column, cols: set<Column>): (acc': map<int, Row>)
    requires key in r && cols <= r.Keys && Shaped(acc, cols)
    ensures Shaped(acc', cols)
  {
    var k := r[key];
    if k in acc then acc[k := map c | c in cols :: acc[k][c] + r[c]]
    else acc[k := map c | c in cols :: r[c]]
  }

  function GroupSumFrom(acc: map<int, Row>, rows: seq<Row>, key: Column, cols: set<Column>): (g: map<int, Row>)
    requires HasColumns(rows, {key} + cols) && Shaped(acc, cols)
    ensures Shaped(g, cols)
    decreases rows
  {
    if rows == [] then acc
    else
      assert {key} + cols <= rows[0].Keys;
      GroupSumFrom(SumInto(acc, rows[0], key, cols), rows[1..], key, cols)
  }

  /** `groupby(key)[cols].sum()`: one row per distinct key, holding exactly the
      columns `cols`, each the total of that column over the group. */
  function GroupSum(rows: seq<Row>, key: Column, cols: set<Column>): (g: map<int, Row>)
    requires HasColumns(rows, {key} + cols)
    ensures g.Keys == KeySet(rows, key)
    ensures Shaped(g, cols)
    ensures GroupTotals(g, rows, key, cols)
  {
    GroupSumFromSpec(map[], rows, key, cols);
    var g := GroupSumFrom(map[], rows, key, cols);
    g
  }

  lemma HasColumnsWeaken(rows: seq<Row>, cols: set<Column>, fewer: set<Column>)
    requires HasColumns(rows, cols) && fewer <= cols
    ensures HasColumns(rows, fewer)
  {
  }

  lemma {:induction false} GroupSumFromSpec(acc: map<int, Row>, rows: seq<Row>, key: Column, cols: set<Column>)
    requires HasColumns(rows, {key} + cols) && Shaped(acc, cols)
    ensures HasColumns(rows, {key})
    ensures GroupSumFrom(acc, rows, key, cols).Keys == acc.Keys + KeySet(rows, key)
    ensures forall k, c :: k in GroupSumFrom(acc, rows, key, cols) && c in cols ==>
              HasColumns(rows, {key, c}) &&
              GroupSumFrom(acc, rows, key, cols)[k][c] == (if k in acc then acc[k][c] else 0) + GroupTotal(rows, key, k, c)
    decreases rows
  {
    HasColumnsWeaken(rows, {key} + cols, {key});
    forall c | c in cols ensures HasColumns(rows, {key, c}) {
      HasColumnsWeaken(rows, {key} + cols, {key, c});
    }
    if rows != [] {
      var r := rows[0];
      assert {key} + cols <= r.Keys;
      var acc' := SumInto(acc, r, key, cols);
      var tail := rows[1..];
      assert HasColumns(tail, {key} + cols) by {
        forall i | 0 <= i < |tail| ensures {key} + cols <= tail[i].Keys {
          assert tail[i] == rows[i + 1];
        }
      }
      GroupSumFromSpec(acc', tail, key, cols);
      KeySetTail(rows, key);
      var g := GroupSumFrom(acc', tail, key, cols);
      assert g == GroupSumFrom(acc, rows, key, cols);
      forall k, c | k in g && c in cols
        ensures g[k][c] == (if k in acc then acc[k][c] else 0) + GroupTotal(rows, key, k, c)
      {
        assert HasColumns(tail, {key, c});
        assert GroupTotal(rows, key, k, c) == (if r[key] == k then r[c] else 0) + GroupTotal(tail, key, k, c);
      }
    }
  }

  // ---------------------------------------------------------------------------
  // groupby(key).first()
  // ---------------------------------------------------------------------------

  /** Keeps a row only when its group has not been seen yet. */
  function FirstInto(acc: map<int, Row>, r: Row, key: Column): (acc': map<int, Row>)
    requires key in r
  {
    if r[key] in acc then acc else acc[r[key] := r]
  }

  function GroupFirstFrom(acc: map<int, Row>, rows: seq<Row>, key: Column): (g: map<int, Row>)
    requires HasColumns(rows, {key})
    decreases rows
  {
    if rows == [] then acc
    else
      assert key in rows[0];
      GroupFirstFrom(FirstInto(acc, rows[0], key), rows[1..], key)
  }

  /** `groupby(key).first()`: one row per distinct key, namely the group's
      first member in input order (so its `key` column is the group key). */
  function GroupFirst(rows: seq<Row>, key: Column): (g: map<int, Row>)
    requires HasColumns(rows, {key})
    ensures g.Keys == KeySet(rows, key)
    ensures forall k :: k in g ==> g[k] == rows[FirstIndex(rows, key, k)]
    ensures forall k :: k in g ==> key in g[k] && g[k][key] == k
  {
    GroupFirstFromSpec(map[], rows, key);
    var g := GroupFirstFrom(map[], rows, key);
    g
  }

  lemma {:induction false} GroupFirstFromSpec(acc: map<int, Row>, rows: seq<Row>, key: Column)
    requires HasColumns(rows, {key})
    ensures GroupFirstFrom(acc, rows, key).Keys == acc.Keys + KeySet(rows, key)
    ensures forall k :: k in GroupFirstFrom(acc, rows, key) ==>
              GroupFirstFrom(acc, rows, key)[k] == if k in acc then acc[k] else rows[FirstIndex(rows, key, k)]
    decreases rows
  {
    if rows != [] {
      var r := rows[0];
      assert key in r;
      var acc' := FirstInto(acc, r, key);
      var tail := rows[1..];
      KeySetTail(rows, key);
      GroupFirstFromSpec(acc', tail, key);
      var g := GroupFirstFrom(acc', tail, key);
      assert g == GroupFirstFrom(acc, rows, key);
      forall k | k in g && k !in acc
        ensures g[k] == rows[FirstIndex(rows, key, k)]
      {
        if r[key] != k {
          assert k !in acc' && k in KeySet(tail, key);
          assert FirstIndex(rows, key, k) == 1 + FirstIndex(tail, key, k);
        }
      }
    }
  }
}
