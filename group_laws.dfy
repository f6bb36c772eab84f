/**
 * Laws of the grouped reductions: a grouped sum does not depend on the order
 * of the rows, a row of zeros adds nothing, a first-of-group value does not
 * depend on the order when the group agrees on it, and both reductions see
 * only the columns they read (so grouping a selection of a frame is grouping
 * the frame).
 */
module GroupLaws {
  import opened Frames
  import opened Grouping

  // ---------------------------------------------------------------------------
  // Order of the rows
  // ---------------------------------------------------------------------------

  lemma {:induction false} GroupTotalAppend(s: seq<Row>, t: seq<Row>, key: Column, k: int, c: Column)
    requires HasColumns(s, {key, c}) && HasColumns(t, {key, c})
    ensures HasColumns(s + t, {key, c})
    ensures GroupTotal(s + t, key, k, c) == GroupTotal(s, key, k, c) + GroupTotal(t, key, k, c)
  {
    assert HasColumns(s + t, {key, c}) by {
      forall i | 0 <= i < |s + t| ensures {key, c} <= (s + t)[i].Keys {
        if i >= |s| { assert (s + t)[i] == t[i - |s|]; }
      }
    }
    if s != [] {
      assert (s + t)[1..] == s[1..] + t;
      assert HasColumns(s[1..], {key, c}) by {
        forall i | 0 <= i < |s| - 1 ensures {key, c} <= s[1..][i].Keys {
          assert s[1..][i] == s[i + 1];
        }
      }
      GroupTotalAppend(s[1..], t, key, k, c);
    } else {
      assert s + t == t;
    }
  }

  /** Removing the row at `i` takes exactly that row's share out of the total. */
  lemma GroupTotalRemove(s: seq<Row>, i: nat, key: Column, k: int, c: Column)
    requires i < |s| && HasColumns(s, {key, c})
    ensures HasColumns(s[..i] + s[i + 1..], {key, c})
    ensures GroupTotal(s, key, k, c) ==
            (if s[i][key] == k then s[i][c] else 0) + GroupTotal(s[..i] + s[i + 1..], key, k, c)
  {
    var front, back := s[..i], s[i + 1..];
    assert HasColumns(front, {key, c}) by {
      forall j | 0 <= j < |front| ensures {key, c} <= front[j].Keys { assert front[j] == s[j]; }
    }
    assert HasColumns(back, {key, c}) by {
      forall j | 0 <= j < |back| ensures {key, c} <= back[j].Keys { assert back[j] == s[i + 1 + j]; }
    }
    assert s == front + ([s[i]] + back);
    assert HasColumns([s[i]], {key, c});
    GroupTotalAppend([s[i]], back, key, k, c);
    GroupTotalAppend(front, [s[i]] + back, key, k, c);
    GroupTotalAppend(front, back, key, k, c);
  }

  /** Rows that are a permutation of rows carrying some columns carry them too. */
  lemma HasColumnsPermutation(a: seq<Row>, b: seq<Row>, cols: set<Column>)
    requires multiset(a) == multiset(b) && HasColumns(a, cols)
    ensures HasColumns(b, cols)
  {
    forall j | 0 <= j < |b| ensures cols <= b[j].Keys {
      assert b[j] in multiset(b);
      var i :| 0 <= i < |a| && a[i] == b[j];
    }
  }

  lemma KeySetPermutation(a: seq<Row>, b: seq<Row>, key: Column)
    requires multiset(a) == multiset(b) && HasColumns(a, {key})
    ensures HasColumns(b, {key}) && KeySet(a, key) == KeySet(b, key)
  {
    HasColumnsPermutation(a, b, {key});
    forall x | x in KeySet(a, key) ensures x in KeySet(b, key) {
      var i :| 0 <= i < |a| && a[i][key] == x;
      assert a[i] in multiset(b);
      var j :| 0 <= j < |b| && b[j] == a[i];
    }
    forall x | x in KeySet(b, key) ensures x in KeySet(a, key) {
      var j :| 0 <= j < |b| && b[j][key] == x;
      assert b[j] in multiset(a);
      var i :| 0 <= i < |a| && a[i] == b[j];
    }
  }

  lemma MultisetRemove(a: seq<Row>, b: seq<Row>, i: nat)
    requires multiset(a) == multiset(b) && a != [] && i < |b| && b[i] == a[0]
    ensures multiset(a[1..]) == multiset(b[..i] + b[i + 1..])
  {
    assert b == b[..i] + [b[i]] + b[i + 1..];
    assert a == [a[0]] + a[1..];
    assert multiset(a) == multiset{a[0]} + multiset(a[1..]);
    assert multiset(b) == multiset(b[..i]) + multiset{b[i]} + multiset(b[i + 1..]);
    calc {
      multiset(a[1..]);
      multiset(a) - multiset{a[0]};
      multiset(b) - multiset{b[i]};
      multiset(b[..i] + b[i + 1..]);
    }
  }

  /** Reordering the persons does not change any group total. */
  lemma {:induction false} GroupTotalPermutation(a: seq<Row>, b: seq<Row>, key: Column, k: int, c: Column)
    requires multiset(a) == multiset(b) && HasColumns(a, {key, c})
    ensures HasColumns(b, {key, c})
    ensures GroupTotal(a, key, k, c) == GroupTotal(b, key, k, c)
    decreases |a|
  {
    HasColumnsPermutation(a, b, {key, c});
    if a == [] {
      assert |b| == |multiset(b)| == 0;
    } else {
      assert a[0] in multiset(b);
      var i :| 0 <= i < |b| && b[i] == a[0];
      var rest := b[..i] + b[i + 1..];
      MultisetRemove(a, b, i);
      assert HasColumns(a[1..], {key, c}) by {
        forall j | 0 <= j < |a| - 1 ensures {key, c} <= a[1..][j].Keys { assert a[1..][j] == a[j + 1]; }
      }
      GroupTotalPermutation(a[1..], rest, key, k, c);
      GroupTotalRemove(b, i, key, k, c);
    }
  }

  /** Reordering the rows gives the same grouped sum: the same keys and, for
      every group, the same row. */
  lemma GroupSumPermutation(a: seq<Row>, b: seq<Row>, key: Column, cols: set<Column>)
    requires multiset(a) == multiset(b) && HasColumns(a, {key} + cols)
    ensures HasColumns(b, {key} + cols)
    ensures GroupSum(a, key, cols) == GroupSum(b, key, cols)
  {
    HasColumnsPermutation(a, b, {key} + cols);
    HasColumnsWeaken(a, {key} + cols, {key});
    KeySetPermutation(a, b, key);
    var ga, gb := GroupSum(a, key, cols), GroupSum(b, key, cols);
    forall k | k in ga ensures ga[k] == gb[k] {
      forall c | c in cols ensures ga[k][c] == gb[k][c] {
        GroupTotalPermutation(a, b, key, k, c);
      }
    }
  }

  // ---------------------------------------------------------------------------
  // Rows of zeros
  // ---------------------------------------------------------------------------

  /** A person whose value in column `c` is 0 (a missing value after
      `fillna(0)`) changes no group's total of `c`, wherever it stands. */
  lemma GroupTotalZeroRow(s: seq<Row>, t: seq<Row>, r: Row, key: Column, k: int, c: Column)
    requires HasColumns(s, {key, c}) && HasColumns(t, {key, c}) && key in r && c in r
    requires r[c] == 0
    ensures HasColumns(s + [r] + t, {key, c}) && HasColumns(s + t, {key, c})
    ensures GroupTotal(s + [r] + t, key, k, c) == GroupTotal(s + t, key, k, c)
  {
    assert HasColumns([r], {key, c});
    GroupTotalAppend(s, [r], key, k, c);
    GroupTotalAppend(s + [r], t, key, k, c);
    GroupTotalAppend(s, t, key, k, c);
  }

  lemma HasColumnsInsert(s: seq<Row>, t: seq<Row>, r: Row, cols: set<Column>)
    requires HasColumns(s, cols) && HasColumns(t, cols) && cols <= r.Keys
    ensures HasColumns(s + [r] + t, cols) && HasColumns(s + t, cols)
  {
    var u, v := s + [r] + t, s + t;
    forall i | 0 <= i < |u| ensures cols <= u[i].Keys {
      if i < |s| { assert u[i] == s[i]; }
      else if i > |s| { assert u[i] == t[i - |s| - 1]; }
    }
    forall i | 0 <= i < |v| ensures cols <= v[i].Keys {
      if i >= |s| { assert v[i] == t[i - |s|]; }
    }
  }

  lemma KeySetInsert(s: seq<Row>, t: seq<Row>, r: Row, key: Column)
    requires HasColumns(s + [r] + t, {key}) && HasColumns(s + t, {key}) && key in r
    ensures KeySet(s + [r] + t, key) == KeySet(s + t, key) + {r[key]}
  {
    var u, v := s + [r] + t, s + t;
    forall x | x in KeySet(u, key) ensures x in KeySet(v, key) + {r[key]} {
      var i :| 0 <= i < |u| && u[i][key] == x;
      if i < |s| { assert v[i] == u[i]; }
      else if i > |s| { assert v[i - 1] == u[i]; }
    }
    forall x | x in KeySet(v, key) ensures x in KeySet(u, key) {
      var i :| 0 <= i < |v| && v[i][key] == x;
      if i < |s| { assert u[i] == v[i]; } else { assert u[i + 1] == v[i]; }
    }
    assert u[|s|] == r;
  }

  /** Inserting a person whose summed columns are all 0 leaves the grouped sum
      unchanged when the person's unit already exists, and otherwise only adds
      that unit with all totals 0. */
  lemma GroupSumZeroRow(s: seq<Row>, t: seq<Row>, r: Row, key: Column, cols: set<Column>)
    requires HasColumns(s, {key} + cols) && HasColumns(t, {key} + cols) && {key} + cols <= r.Keys
    requires forall c :: c in cols ==> r[c] == 0
    ensures HasColumns(s + [r] + t, {key} + cols) && HasColumns(s + t, {key} + cols)
    ensures GroupSum(s + [r] + t, key, cols) ==
            if r[key] in KeySet(s + t, key) then GroupSum(s + t, key, cols)
            else GroupSum(s + t, key, cols)[r[key] := map c | c in cols :: 0]
  {
    var u, v := s + [r] + t, s + t;
    HasColumnsInsert(s, t, r, {key} + cols);
    HasColumnsWeaken(u, {key} + cols, {key});
    HasColumnsWeaken(v, {key} + cols, {key});
    KeySetInsert(s, t, r, key);
    forall k, c | c in cols ensures SameTotal(u, v, key, k, c) {
      HasColumnsWeaken(s, {key} + cols, {key, c});
      HasColumnsWeaken(t, {key} + cols, {key, c});
      GroupTotalZeroRow(s, t, r, key, k, c);
    }
    if r[key] in KeySet(v, key) {
      GroupSumSameTotals(u, v, key, cols);
    } else {
      GroupSumNewZeroKey(u, v, key, cols, r[key]);
    }
  }

  /** Both tables carry `key` and `c`, and every group has the same total of
      `c` in both. */
  predicate SameTotal(u: seq<Row>, v: seq<Row>, key: Column, k: int, c: Column) {
    HasColumns(u, {key, c}) && HasColumns(v, {key, c}) && GroupTotal(u, key, k, c) == GroupTotal(v, key, k, c)
  }

  /** Tables with the same keys and the same group totals have the same
      grouped sum. */
  lemma GroupSumSameTotals(u: seq<Row>, v: seq<Row>, key: Column, cols: set<Column>)
    requires HasColumns(u, {key} + cols) && HasColumns(v, {key} + cols)
    requires HasColumns(u, {key}) && HasColumns(v, {key}) && KeySet(u, key) == KeySet(v, key)
    requires forall k, c :: c in cols ==> SameTotal(u, v, key, k, c)
    ensures GroupSum(u, key, cols) == GroupSum(v, key, cols)
  {
    var gu, gv := GroupSum(u, key, cols), GroupSum(v, key, cols);
    forall k | k in gu ensures gu[k] == gv[k] {
      SameTotalsRow(u, v, key, cols, k);
    }
  }

  lemma SameTotalsRow(u: seq<Row>, v: seq<Row>, key: Column, cols: set<Column>, k: int)
    requires HasColumns(u, {key} + cols) && HasColumns(v, {key} + cols)
    requires forall c :: c in cols ==> SameTotal(u, v, key, k, c)
    requires k in GroupSum(u, key, cols) && k in GroupSum(v, key, cols)
    ensures GroupSum(u, key, cols)[k] == GroupSum(v, key, cols)[k]
  {
    var gu, gv := GroupSum(u, key, cols), GroupSum(v, key, cols);
    forall c | c in cols ensures gu[k][c] == gv[k][c] {
      assert SameTotal(u, v, key, k, c);
    }
  }

  /** When the only new key of `u` is `k0` and the totals agree, the grouped
      sum of `u` is that of `v` plus a row of zeros for `k0`. */
  lemma GroupSumNewZeroKey(u: seq<Row>, v: seq<Row>, key: Column, cols: set<Column>, k0: int)
    requires HasColumns(u, {key} + cols) && HasColumns(v, {key} + cols)
    requires HasColumns(u, {key}) && HasColumns(v, {key})
    requires k0 !in KeySet(v, key) && KeySet(u, key) == KeySet(v, key) + {k0}
    requires forall k, c :: c in cols ==> SameTotal(u, v, key, k, c)
    ensures GroupSum(u, key, cols) == GroupSum(v, key, cols)[k0 := map c | c in cols :: 0]
  {
    var gu, gv := GroupSum(u, key, cols), GroupSum(v, key, cols);
    var expected := gv[k0 := map c | c in cols :: 0];
    assert gu.Keys == expected.Keys;
    forall k | k in gu ensures gu[k] == expected[k] {
      NewZeroKeyRow(u, v, key, cols, k0, k);
    }
  }

  lemma NewZeroKeyRow(u: seq<Row>, v: seq<Row>, key: Column, cols: set<Column>, k0: int, k: int)
    requires HasColumns(u, {key} + cols) && HasColumns(v, {key} + cols)
    requires HasColumns(u, {key}) && HasColumns(v, {key})
    requires k0 !in KeySet(v, key) && KeySet(u, key) == KeySet(v, key) + {k0}
    requires forall c :: c in cols ==> SameTotal(u, v, key, k, c)
    requires k in KeySet(u, key)
    ensures k in GroupSum(u, key, cols)
    ensures GroupSum(u, key, cols)[k] == GroupSum(v, key, cols)[k0 := map c | c in cols :: 0][k]
  {
    if k == k0 {
      NewKeyRowZero(u, v, key, cols, k0);
    } else {
      SameTotalsRow(u, v, key, cols, k);
    }
  }

  lemma NewKeyRowZero(u: seq<Row>, v: seq<Row>, key: Column, cols: set<Column>, k0: int)
    requires HasColumns(u, {key} + cols) && HasColumns(v, {key})
    requires k0 !in KeySet(v, key) && k0 in GroupSum(u, key, cols)
    requires forall c :: c in cols ==> SameTotal(u, v, key, k0, c)
    ensures GroupSum(u, key, cols)[k0] == map c | c in cols :: 0
  {
    var gu := GroupSum(u, key, cols);
    forall c | c in cols ensures gu[k0][c] == 0 {
      assert SameTotal(u, v, key, k0, c);
      GroupTotalOutsideKeys(v, key, k0, c);
    }
  }

  /** A key that no row carries has total 0. */
  lemma {:induction false} GroupTotalOutsideKeys(rows: seq<Row>, key: Column, k: int, c: Column)
    requires HasColumns(rows, {key, c}) && HasColumns(rows, {key}) && k !in KeySet(rows, key)
    ensures GroupTotal(rows, key, k, c) == 0
  {
    if rows != [] {
      KeySetTail(rows, key);
      assert HasColumns(rows[1..], {key, c}) by {
        forall j | 0 <= j < |rows| - 1 ensures {key, c} <= rows[1..][j].Keys { assert rows[1..][j] == rows[j + 1]; }
      }
      GroupTotalOutsideKeys(rows[1..], key, k, c);
    }
  }

  /** `fillna(0)` followed by a sum gives the total of the values present,
      the missing ones left out, with a missing key read as 0 as `fillna(0)`
      makes it. */
  function PresentTotal(rows: seq<RawRow>, key: Column, k: int, c: Column): (total: int)
    requires forall i :: 0 <= i < |rows| ==> key in rows[i] && c in rows[i]
  {
    if rows == [] then 0
    else
      var here := if Fill(rows[0][key]) == k && rows[0][c].Some? then rows[0][c].value else 0;
      here + PresentTotal(rows[1..], key, k, c)
  }

  lemma {:induction false} FilledTotalIsPresentTotal(f: RawFrame, key: Column, k: int, c: Column)
    requires RawWellFormed(f) && key in f.columns && c in f.columns
    ensures HasColumns(FillNa(f).rows, {key, c})
    ensures GroupTotal(FillNa(f).rows, key, k, c) == PresentTotal(f.rows, key, k, c)
    decreases |f.rows|
  {
    var g := FillNa(f);
    if f.rows != [] {
      var f' := RawFrame(f.columns, f.rows[1..]);
      FilledTotalIsPresentTotal(f', key, k, c);
      assert FillNa(f').rows == g.rows[1..];
    }
  }

  // ---------------------------------------------------------------------------
  // First of group
  // ---------------------------------------------------------------------------

  /** When every member of a group holds the same value `v` in column `c`, the
      group's first row holds `v`. */
  lemma GroupFirstUniform(rows: seq<Row>, key: Column, k: int, c: Column, v: int)
    requires HasColumns(rows, {key, c}) && HasColumns(rows, {key}) && k in KeySet(rows, key)
    requires forall i :: 0 <= i < |rows| && rows[i][key] == k ==> rows[i][c] == v
    ensures k in GroupFirst(rows, key) && c in GroupFirst(rows, key)[k] && GroupFirst(rows, key)[k][c] == v
  {
    var i := FirstIndex(rows, key, k);
    assert {key, c} <= rows[i].Keys;
  }

  /** A group that agrees on column `c` still agrees, on the same key set,
      after the rows are reordered. */
  lemma UniformPermutation(a: seq<Row>, b: seq<Row>, key: Column, k: int, c: Column, v: int)
    requires multiset(a) == multiset(b) && HasColumns(a, {key, c}) && HasColumns(a, {key}) && k in KeySet(a, key)
    requires forall i :: 0 <= i < |a| && a[i][key] == k ==> a[i][c] == v
    ensures HasColumns(b, {key, c}) && HasColumns(b, {key}) && k in KeySet(b, key)
    ensures forall j :: 0 <= j < |b| && b[j][key] == k ==> b[j][c] == v
  {
    HasColumnsPermutation(a, b, {key, c});
    KeySetPermutation(a, b, key);
    forall j | 0 <= j < |b| && b[j][key] == k ensures b[j][c] == v {
      assert b[j] in multiset(a);
      var i :| 0 <= i < |a| && a[i] == b[j];
    }
  }

  /** Under that uniformity, reordering the persons does not change the value. */
  lemma GroupFirstOrderIndependent(a: seq<Row>, b: seq<Row>, key: Column, k: int, c: Column, v: int)
    requires multiset(a) == multiset(b) && HasColumns(a, {key, c}) && HasColumns(a, {key}) && k in KeySet(a, key)
    requires forall i :: 0 <= i < |a| && a[i][key] == k ==> a[i][c] == v
    ensures HasColumns(b, {key}) && GroupFirst(a, key).Keys == GroupFirst(b, key).Keys
    ensures k in GroupFirst(b, key) && c in GroupFirst(b, key)[k] && GroupFirst(b, key)[k][c] == v
    ensures GroupFirst(a, key)[k][c] == GroupFirst(b, key)[k][c]
  {
    UniformPermutation(a, b, key, k, c, v);
    KeySetPermutation(a, b, key);
    GroupFirstUniform(a, key, k, c, v);
    GroupFirstUniform(b, key, k, c, v);
  }

  /** Without uniformity the first row wins: two members of unit 7 that
      disagree on a field give different unit rows in the two orders. */
  lemma FirstDependsOnOrder()
    ensures var p, q := map["SPM_ID" := 7, "SPM_WEIGHT" := 1], map["SPM_ID" := 7, "SPM_WEIGHT" := 2];
            HasColumns([p, q], {"SPM_ID"}) && HasColumns([q, p], {"SPM_ID"}) &&
            7 in GroupFirst([p, q], "SPM_ID") && GroupFirst([p, q], "SPM_ID")[7] == p &&
            7 in GroupFirst([q, p], "SPM_ID") && GroupFirst([q, p], "SPM_ID")[7] == q
  {
    var p, q := map["SPM_ID" := 7, "SPM_WEIGHT" := 1], map["SPM_ID" := 7, "SPM_WEIGHT" := 2];
    assert 7 in KeySet([p, q], "SPM_ID") by { assert [p, q][0]["SPM_ID"] == 7; }
    assert 7 in KeySet([q, p], "SPM_ID") by { assert [q, p][0]["SPM_ID"] == 7; }
  }

  // ---------------------------------------------------------------------------
  // Grouping a selection
  // ---------------------------------------------------------------------------

  /** Two tables with the same number of rows that agree, row by row, on the
      columns `cols`. */
  predicate AgreeOn(a: seq<Row>, b: seq<Row>, cols: set<Column>) {
    |a| == |b| && HasColumns(a, cols) && HasColumns(b, cols) &&
    forall i, c :: 0 <= i < |a| && c in cols ==> a[i][c] == b[i][c]
  }

  lemma {:induction false} AgreeTail(a: seq<Row>, b: seq<Row>, cols: set<Column>)
    requires a != [] && AgreeOn(a, b, cols)
    ensures AgreeOn(a[1..], b[1..], cols)
  {
    assert forall i :: 0 <= i < |a| - 1 ==> a[1..][i] == a[i + 1] && b[1..][i] == b[i + 1];
  }

  lemma {:induction false} GroupTotalAgree(a: seq<Row>, b: seq<Row>, key: Column, k: int, c: Column)
    requires AgreeOn(a, b, {key, c})
    ensures GroupTotal(a, key, k, c) == GroupTotal(b, key, k, c)
    decreases |a|
  {
    if a != [] {
      AgreeTail(a, b, {key, c});
      GroupTotalAgree(a[1..], b[1..], key, k, c);
    }
  }

  lemma KeySetAgree(a: seq<Row>, b: seq<Row>, key: Column)
    requires AgreeOn(a, b, {key})
    ensures KeySet(a, key) == KeySet(b, key)
  {
    forall x | x in KeySet(a, key) ensures x in KeySet(b, key) {
      var i :| 0 <= i < |a| && a[i][key] == x;
      assert b[i][key] == x;
    }
    forall x | x in KeySet(b, key) ensures x in KeySet(a, key) {
      var i :| 0 <= i < |b| && b[i][key] == x;
      assert a[i][key] == x;
    }
  }

  lemma FirstIndexAgree(a: seq<Row>, b: seq<Row>, key: Column, k: int)
    requires AgreeOn(a, b, {key}) && k in KeySet(a, key)
    ensures k in KeySet(b, key) && FirstIndex(a, key, k) == FirstIndex(b, key, k)
  {
    KeySetAgree(a, b, key);
  }
}
