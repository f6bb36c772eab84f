/**
 * Selection followed by a grouped reduction, for any column list:
 * `frame[cols].groupby(frame[key]).sum()` and `.first()`. Both fail as the
 * selection does when a listed column is absent, and otherwise are stated
 * against the original frame's rows (the selection only drops columns).
 */
module Tables {
  import opened Frames
  import opened Grouping
  import opened GroupLaws

  /** The columns a grouped sum totals: the selected ones except the key. */
  function SummedColumns(cols: seq<Column>, key: Column): (sums: set<Column>) {
    set c | c in cols && c != key
  }

  /** All rows of `g` hold the same columns, as a table does: the columns
      `cols` other than `key`, and `key` at most besides. Whether
      `frame[cols].groupby(frame[key])` keeps the key column in its output
      depends on the pandas version (on whether it takes the grouping series
      for a column of the selection), so both are allowed, but for the whole
      table at once. */
  predicate ShapedUpToKey(g: map<int, Row>, cols: set<Column>, key: Column) {
    (forall k :: k in g ==> cols - {key} <= g[k].Keys <= cols + {key}) &&
    (forall k1, k2 :: k1 in g && k2 in g ==> g[k1].Keys == g[k2].Keys)
  }

  lemma SelectedRows(f: Frame, cols: seq<Column>, wanted: set<Column>)
    requires WellFormed(f) && Select(f, cols).Ok? && wanted <= (set c | c in cols)
    ensures HasColumns(Select(f, cols).value.rows, wanted) && HasColumns(f.rows, wanted)
    ensures AgreeOn(Select(f, cols).value.rows, f.rows, wanted)
  {
  }

  /** `f[cols].groupby(f[key]).sum()`: one row per distinct key of `f`, holding
      the summed columns (their values: `SelectGroupSumCell`). The model keeps
      the key column too, summed like the others; the contract leaves it open. */
  function SelectGroupSum(f: Frame, cols: seq<Column>, key: Column): (r: Result<map<int, Row>>)
    requires WellFormed(f) && key in cols
    ensures r.Ok? <==> forall c :: c in cols ==> c in f.columns
    ensures r.Err? ==> r.error == MissingColumns(MissingFrom(cols, f.columns))
    ensures r.Ok? ==> HasColumns(f.rows, {key} + SummedColumns(cols, key))
    ensures r.Ok? ==> r.value.Keys == KeySet(f.rows, key)
    ensures r.Ok? ==> ShapedUpToKey(r.value, (set c | c in cols), key)
  {
    match Select(f, cols)
    case Err(e) => Err(e)
    case Ok(selected) =>
      SelectedSumKeys(f, cols, key, selected);
      Ok(GroupSum(selected.rows, key, set c | c in cols))
  }

  /** Each summed cell of `f[cols].groupby(f[key]).sum()` is its column's total
      over the rows of the group in `f`. */
  lemma SelectGroupSumCell(f: Frame, cols: seq<Column>, key: Column, k: int, c: Column)
    requires WellFormed(f) && key in cols && SelectGroupSum(f, cols, key).Ok?
    requires k in SelectGroupSum(f, cols, key).value && c in SummedColumns(cols, key)
    ensures HasColumns(f.rows, {key, c}) && c in SelectGroupSum(f, cols, key).value[k]
    ensures SelectGroupSum(f, cols, key).value[k][c] == GroupTotal(f.rows, key, k, c)
  {
    SelectedSumCell(f, cols, key, Select(f, cols).value, k, c);
  }

  /** Summing the selection of `f` groups by the keys of `f`. */
  lemma SelectedSumKeys(f: Frame, cols: seq<Column>, key: Column, selected: Frame)
    requires WellFormed(f) && key in cols && Select(f, cols) == Ok(selected)
    ensures HasColumns(selected.rows, {key} + (set c | c in cols))
    ensures HasColumns(f.rows, {key} + SummedColumns(cols, key))
    ensures GroupSum(selected.rows, key, set c | c in cols).Keys == KeySet(f.rows, key)
  {
    SelectedRows(f, cols, {key} + (set c | c in cols));
    SelectedRows(f, cols, {key} + SummedColumns(cols, key));
    SelectedRows(f, cols, {key});
    KeySetAgree(selected.rows, f.rows, key);
  }

  /** Each total of the summed selection is a total over the rows of `f`. */
  lemma SelectedSumCell(f: Frame, cols: seq<Column>, key: Column, selected: Frame, k: int, c: Column)
    requires WellFormed(f) && key in cols && Select(f, cols) == Ok(selected)
    requires HasColumns(selected.rows, {key} + (set c | c in cols))
    requires k in GroupSum(selected.rows, key, set c | c in cols) && c in cols
    ensures HasColumns(f.rows, {key, c}) && c in GroupSum(selected.rows, key, set c | c in cols)[k]
    ensures GroupSum(selected.rows, key, set c | c in cols)[k][c] == GroupTotal(f.rows, key, k, c)
  {
    SelectedRows(f, cols, {key, c});
    GroupTotalAgree(selected.rows, f.rows, key, k, c);
  }

  /** `f[cols].groupby(f[key]).first()`: one row per distinct key of `f`,
      holding the selected columns (the key column at most, see `ShapedUpToKey`),
      copied from the group's first row. The model keeps the key column. */
  function SelectGroupFirst(f: Frame, cols: seq<Column>, key: Column): (r: Result<map<int, Row>>)
    requires WellFormed(f) && key in cols
    ensures r.Ok? <==> forall c :: c in cols ==> c in f.columns
    ensures r.Err? ==> r.error == MissingColumns(MissingFrom(cols, f.columns))
    ensures r.Ok? ==> HasColumns(f.rows, {key})
    ensures r.Ok? ==> r.value.Keys == KeySet(f.rows, key)
    ensures r.Ok? ==> ShapedUpToKey(r.value, (set c | c in cols), key)
    ensures r.Ok? ==> forall k, c :: k in r.value && c in r.value[k] ==>
              c in f.rows[FirstIndex(f.rows, key, k)] && r.value[k][c] == f.rows[FirstIndex(f.rows, key, k)][c]
    ensures r.Ok? ==> forall k :: k in r.value && key in r.value[k] ==> r.value[k][key] == k
  {
    match Select(f, cols)
    case Err(e) => Err(e)
    case Ok(selected) =>
      SelectedRows(f, cols, {key});
      var g := GroupFirst(selected.rows, key);
      KeySetAgree(selected.rows, f.rows, key);
      forall k | k in g ensures FirstIndex(selected.rows, key, k) == FirstIndex(f.rows, key, k) {
        FirstIndexAgree(selected.rows, f.rows, key, k);
      }
      Ok(g)
  }

  /** Reordering the rows of `f` does not change its grouped sum. */
  lemma SelectGroupSumPermutation(f: Frame, f': Frame, cols: seq<Column>, key: Column)
    requires WellFormed(f) && WellFormed(f') && key in cols
    requires f.columns == f'.columns && multiset(f.rows) == multiset(f'.rows)
    ensures SelectGroupSum(f, cols, key) == SelectGroupSum(f', cols, key)
  {
    var sums := set c | c in cols;
    match Select(f, cols)
    case Err(e) =>
    case Ok(selected) =>
      var selected' := Select(f', cols).value;
      SelectedRows(f, cols, {key} + sums);
      SelectedRows(f', cols, {key} + sums);
      GroupSumAgreePermutation(selected.rows, f.rows, selected'.rows, f'.rows, key, sums);
  }

  /** Two tables that agree on the grouped columns with two reorderings of
      one another have the same grouped sum. */
  lemma GroupSumAgreePermutation(a: seq<Row>, b: seq<Row>, a': seq<Row>, b': seq<Row>, key: Column, cols: set<Column>)
    requires AgreeOn(a, b, {key} + cols) && AgreeOn(a', b', {key} + cols) && multiset(b) == multiset(b')
    ensures GroupSum(a, key, cols) == GroupSum(a', key, cols)
  {
    var g, g' := GroupSum(a, key, cols), GroupSum(a', key, cols);
    KeysAgreePermutation(a, b, a', b', key, cols);
    forall k | k in g ensures g[k] == g'[k] {
      RowAgreePermutation(a, b, a', b', key, cols, k);
    }
  }

  lemma KeysAgreePermutation(a: seq<Row>, b: seq<Row>, a': seq<Row>, b': seq<Row>, key: Column, cols: set<Column>)
    requires AgreeOn(a, b, {key} + cols) && AgreeOn(a', b', {key} + cols) && multiset(b) == multiset(b')
    ensures GroupSum(a, key, cols).Keys == GroupSum(a', key, cols).Keys
  {
    AgreeWeaken(a, b, {key} + cols, {key});
    AgreeWeaken(a', b', {key} + cols, {key});
    KeySetAgree(a, b, key);
    KeySetAgree(a', b', key);
    KeySetPermutation(b, b', key);
  }

  lemma RowAgreePermutation(a: seq<Row>, b: seq<Row>, a': seq<Row>, b': seq<Row>, key: Column, cols: set<Column>, k: int)
    requires AgreeOn(a, b, {key} + cols) && AgreeOn(a', b', {key} + cols) && multiset(b) == multiset(b')
    requires k in GroupSum(a, key, cols)
    ensures k in GroupSum(a', key, cols) && GroupSum(a, key, cols)[k] == GroupSum(a', key, cols)[k]
  {
    KeysAgreePermutation(a, b, a', b', key, cols);
    forall c | c in cols ensures GroupSum(a, key, cols)[k][c] == GroupSum(a', key, cols)[k][c] {
      CellAgreePermutation(a, b, a', b', key, cols, k, c);
    }
  }

  lemma CellAgreePermutation(a: seq<Row>, b: seq<Row>, a': seq<Row>, b': seq<Row>, key: Column, cols: set<Column>, k: int, c: Column)
    requires AgreeOn(a, b, {key} + cols) && AgreeOn(a', b', {key} + cols) && multiset(b) == multiset(b')
    requires k in GroupSum(a, key, cols) && k in GroupSum(a', key, cols) && c in cols
    ensures GroupSum(a, key, cols)[k][c] == GroupSum(a', key, cols)[k][c]
  {
    AgreeWeaken(a, b, {key} + cols, {key, c});
    AgreeWeaken(a', b', {key} + cols, {key, c});
    GroupTotalAgree(a, b, key, k, c);
    GroupTotalAgree(a', b', key, k, c);
    GroupTotalPermutation(b, b', key, k, c);
  }

  lemma AgreeWeaken(a: seq<Row>, b: seq<Row>, cols: set<Column>, fewer: set<Column>)
    requires AgreeOn(a, b, cols) && fewer <= cols
    ensures AgreeOn(a, b, fewer)
  {
  }

  /** The first-of-group value of a group that agrees on column `c`. */
  lemma SelectGroupFirstAgreeing(f: Frame, cols: seq<Column>, key: Column, k: int, c: Column, v: int)
    requires WellFormed(f) && key in cols && c in cols && forall c' :: c' in cols ==> c' in f.columns
    requires HasColumns(f.rows, {key, c}) && HasColumns(f.rows, {key}) && k in KeySet(f.rows, key)
    requires forall i :: 0 <= i < |f.rows| && f.rows[i][key] == k ==> f.rows[i][c] == v
    ensures SelectGroupFirst(f, cols, key).Ok? && k in SelectGroupFirst(f, cols, key).value
    ensures c != key ==> c in SelectGroupFirst(f, cols, key).value[k]
    ensures c in SelectGroupFirst(f, cols, key).value[k] ==> SelectGroupFirst(f, cols, key).value[k][c] == v
  {
    var g := SelectGroupFirst(f, cols, key).value;
    var i := FirstIndex(f.rows, key, k);
    assert f.rows[i][key] == k;
  }

  /** When a group of `f` agrees on column `c`, its first-of-group value is
      that common value, in `f` and in every reordering of `f`. */
  lemma SelectGroupFirstUniform(f: Frame, f': Frame, cols: seq<Column>, key: Column, k: int, c: Column, v: int)
    requires WellFormed(f) && WellFormed(f') && key in cols && c in cols
    requires f.columns == f'.columns && multiset(f.rows) == multiset(f'.rows)
    requires forall c' :: c' in cols ==> c' in f.columns
    requires HasColumns(f.rows, {key, c}) && HasColumns(f.rows, {key}) && k in KeySet(f.rows, key)
    requires forall i :: 0 <= i < |f.rows| && f.rows[i][key] == k ==> f.rows[i][c] == v
    ensures SelectGroupFirst(f, cols, key).Ok? && k in SelectGroupFirst(f, cols, key).value
    ensures SelectGroupFirst(f', cols, key).Ok? && k in SelectGroupFirst(f', cols, key).value
    ensures c != key ==> c in SelectGroupFirst(f, cols, key).value[k] && c in SelectGroupFirst(f', cols, key).value[k]
    ensures c in SelectGroupFirst(f, cols, key).value[k] ==> SelectGroupFirst(f, cols, key).value[k][c] == v
    ensures c in SelectGroupFirst(f', cols, key).value[k] ==> SelectGroupFirst(f', cols, key).value[k][c] == v
  {
    UniformPermutation(f.rows, f'.rows, key, k, c, v);
    SelectGroupFirstAgreeing(f, cols, key, k, c, v);
    SelectGroupFirstAgreeing(f', cols, key, k, c, v);
  }

  /** Two rows with the same key make one group, whose total in every summed
      column is the sum of the two rows' values. */
  lemma SelectGroupSumTwoRows(r1: Row, r2: Row, cols: seq<Column>, key: Column, c: Column)
    requires r1.Keys == r2.Keys && key in cols && (forall c' :: c' in cols ==> c' in r1)
    requires r1[key] == r2[key] && c in SummedColumns(cols, key)
    ensures SelectGroupSum(Frame(r1.Keys, [r1, r2]), cols, key).Ok?
    ensures SelectGroupSum(Frame(r1.Keys, [r1, r2]), cols, key).value.Keys == {r1[key]}
    ensures SelectGroupSum(Frame(r1.Keys, [r1, r2]), cols, key).value[r1[key]][c] == r1[c] + r2[c]
  {
    var f := Frame(r1.Keys, [r1, r2]);
    assert WellFormed(f);
    var k := r1[key];
    assert KeySet(f.rows, key) == {k} by {
      assert f.rows[0][key] == k && f.rows[1][key] == k;
    }
    assert f.rows[1..] == [r2] && f.rows[1..][1..] == [];
    SelectGroupSumCell(f, cols, key, k, c);
    assert GroupTotal(f.rows[1..], key, k, c) == r2[c] + GroupTotal(f.rows[1..][1..], key, k, c);
    assert GroupTotal(f.rows, key, k, c) == r1[c] + r2[c];
  }
}
