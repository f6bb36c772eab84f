/**
 * Data frames as the CPS derivations see them: a set of column names and a
 * sequence of rows, each row giving a number for every column. A raw frame, as
 * read from a CSV member, may have missing cells; `FillNa` replaces them by 0.
 * `Select` is column selection `frame[columns]`, which fails naming the
 * columns that are absent.
 */
module Frames {

  type Column = string

  /** One person (or unit) record after missing values were filled. */
  type Row = map<Column, int>

  datatype Option<T> = None | Some(value: T)

  /** The failures of the derivations: absent columns in a selection, or an
      archive member that is not there. */
  datatype Error =
    | MissingColumns(columns: seq<Column>)
    | MissingMember(name: string)

  datatype Result<T> = Ok(value: T) | Err(error: Error)

  datatype Frame = Frame(columns: set<Column>, rows: seq<Row>)

  /** Every row of a data frame has exactly the frame's columns. */
  predicate WellFormed(f: Frame) {
    forall i :: 0 <= i < |f.rows| ==> f.rows[i].Keys == f.columns
  }

  /** A record as parsed from CSV: a cell may be missing (NaN). */
  type RawRow = map<Column, Option<int>>

  datatype RawFrame = RawFrame(columns: set<Column>, rows: seq<RawRow>)

  predicate RawWellFormed(f: RawFrame) {
    forall i :: 0 <= i < |f.rows| ==> f.rows[i].Keys == f.columns
  }

  /** The value `fillna(0)` leaves in a cell. */
  function Fill(v: Option<int>): (x: int) {
    match v
    case Some(x) => x
    case None => 0
  }

  /** `fillna(0)`: same shape, every present cell kept, every missing cell 0. */
  function FillNa(f: RawFrame): (g: Frame)
    ensures g.columns == f.columns && |g.rows| == |f.rows|
    ensures forall i :: 0 <= i < |f.rows| ==> g.rows[i].Keys == f.rows[i].Keys
    ensures forall i, c, x :: 0 <= i < |f.rows| && c in f.rows[i] && f.rows[i][c] == Some(x) ==> g.rows[i][c] == x
    ensures forall i, c :: 0 <= i < |f.rows| && c in f.rows[i] && f.rows[i][c] == None ==> g.rows[i][c] == 0
    ensures RawWellFormed(f) ==> WellFormed(g)
  {
    Frame(f.columns, seq(|f.rows|, i requires 0 <= i < |f.rows| => map c | c in f.rows[i] :: Fill(f.rows[i][c])))
  }

  /** The columns of `cols`, in order, that are not in `present`. */
  function MissingFrom(cols: seq<Column>, present: set<Column>): (m: seq<Column>)
    ensures forall c :: c in m <==> c in cols && c !in present
  {
    if cols == [] then []
    else (if cols[0] in present then [] else [cols[0]]) + MissingFrom(cols[1..], present)
  }

  /** Column selection `f[cols]`: fails with the missing columns when some are
      absent, and otherwise keeps every row and exactly the listed columns. */
  function Select(f: Frame, cols: seq<Column>): (r: Result<Frame>)
    requires WellFormed(f)
    ensures r.Ok? <==> forall c :: c in cols ==> c in f.columns
    ensures r.Err? ==> r.error == MissingColumns(MissingFrom(cols, f.columns)) && r.error.columns != []
    ensures r.Ok? ==> WellFormed(r.value) && r.value.columns == (set c | c in cols) && |r.value.rows| == |f.rows|
    ensures r.Ok? ==> forall i, c :: 0 <= i < |f.rows| && c in r.value.columns ==> r.value.rows[i][c] == f.rows[i][c]
  {
    var missing := MissingFrom(cols, f.columns);
    if missing != [] then
      assert missing[0] in cols && missing[0] !in f.columns;
      Err(MissingColumns(missing))
    else
      var keep := set c | c in cols;
      Ok(Frame(keep, seq(|f.rows|, i requires 0 <= i < |f.rows| => map c | c in keep :: f.rows[i][c])))
  }
}
