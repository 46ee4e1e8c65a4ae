/** Tables as the preprocessing stages see them: an ordered list of column
    names and rows that give a value for each column. This is the part of a
    pandas DataFrame the stages rely on (column order, row order, lookup by
    column name, selection and dropping of columns). */
module Frames {
  import opened Seqs

  /** A cell: an integer, a string, or a missing value (NaN). */
  datatype Value = Int(i: int) | Str(s: string) | Null

  /** One row, keyed by column name. */
  type Row = map<string, Value>

  datatype Table = Table(columns: seq<string>, rows: seq<Row>)

  /** The value both raw sources use to mean "missing". */
  const Sentinel: Value := Int(-99999)

  /** Column names are unique and every row has exactly those columns. */
  predicate WellFormed(t: Table)
  {
    Distinct(t.columns) &&
    forall i :: 0 <= i < |t.rows| ==> t.rows[i].Keys == set c | c in t.columns
  }

  /** The cell of `row` in column `c` equals -99999. */
  predicate HasSentinel(row: Row, c: string)
  {
    c in row && row[c] == Sentinel
  }

  /** The values of column `c`, top to bottom (`df[c]`); a row without the
      column, which a well-formed table with that column never has, reads
      as missing. */
  function Column(t: Table, c: string): (r: seq<Value>)
    ensures |r| == |t.rows|
    ensures forall i :: 0 <= i < |t.rows| && c in t.rows[i] ==> r[i] == t.rows[i][c]
  {
    seq(|t.rows|, i requires 0 <= i < |t.rows| => if c in t.rows[i] then t.rows[i][c] else Null)
  }

  /** `df.loc[mask]`: the rows satisfying `keep`, in table order, with all
      columns. */
  function SelectRows(t: Table, keep: Row -> bool): (r: Table)
    requires WellFormed(t)
    ensures WellFormed(r) && r.columns == t.columns
    ensures r.rows == Filter(t.rows, keep)
  {
    var rows := Filter(t.rows, keep);
    FilterMembers(t.rows, keep);
    assert forall i :: 0 <= i < |rows| ==> rows[i] in t.rows;
    Table(t.columns, rows)
  }

  /** The row restricted to the columns `cols`. */
  function RestrictRow(row: Row, cols: seq<string>): (r: Row)
    ensures r.Keys == row.Keys * (set c | c in cols)
    ensures forall c :: c in r ==> r[c] == row[c]
  {
    map c | c in row.Keys && c in cols :: row[c]
  }

  /** `df[cols]`: the columns `cols`, in that order, of every row. */
  function Project(t: Table, cols: seq<string>): (r: Table)
    requires WellFormed(t)
    requires Distinct(cols) && forall c :: c in cols ==> c in t.columns
    ensures WellFormed(r) && r.columns == cols && |r.rows| == |t.rows|
    ensures forall i, c :: 0 <= i < |t.rows| && c in cols ==> c in r.rows[i] && r.rows[i][c] == t.rows[i][c]
  {
    Table(cols, seq(|t.rows|, i requires 0 <= i < |t.rows| => RestrictRow(t.rows[i], cols)))
  }

  /** `df.drop(names, axis=1)`: every other column, in table order. */
  function DropColumns(t: Table, names: seq<string>): (r: Table)
    requires WellFormed(t)
    ensures WellFormed(r)
    ensures forall c :: c in r.columns <==> c in t.columns && c !in names
    ensures IsSubsequence(r.columns, t.columns)
    ensures r.columns == Filter(t.columns, NotIn(names))
    ensures r == Project(t, r.columns)
  {
    var keep := Filter(t.columns, NotIn(names));
    FilterDistinct(t.columns, NotIn(names));
    FilterMembers(t.columns, NotIn(names));
    FilterIsSubsequence(t.columns, NotIn(names));
    Project(t, keep)
  }

  /** Projecting a projection onto fewer columns is a single projection. */
  lemma ProjectProject(t: Table, cols: seq<string>, sub: seq<string>)
    requires WellFormed(t)
    requires Distinct(cols) && forall c :: c in cols ==> c in t.columns
    requires Distinct(sub) && forall c :: c in sub ==> c in cols
    ensures Project(Project(t, cols), sub) == Project(t, sub)
  {
    var a, b := Project(Project(t, cols), sub), Project(t, sub);
    forall i | 0 <= i < |t.rows| ensures a.rows[i] == b.rows[i] {
      assert a.rows[i].Keys == b.rows[i].Keys;
    }
  }

  /** No cell of the table is missing (`df.isnull().sum().sum() == 0`). */
  predicate NoNulls(t: Table): (r: bool)
    ensures r <==> forall row :: row in t.rows ==> Null !in row.Values
  {
    forall i, c :: 0 <= i < |t.rows| && c in t.rows[i] ==> t.rows[i][c] != Null
  }

  /** No row repeats an earlier one (`df.duplicated().sum() == 0`): pandas
      flags a row as duplicated when an equal row comes before it. */
  predicate NoDuplicateRows(t: Table): (r: bool)
    ensures r <==> forall i :: 0 <= i < |t.rows| ==> t.rows[i] !in t.rows[..i]
    ensures r <==> forall row :: multiset(t.rows)[row] <= 1
  {
    DistinctMultiset(t.rows);
    Distinct(t.rows)
  }

  /** pandas' dtype 'O' for a column: it holds some string, or the table has
      no rows (a header-only file reads back with object columns). */
  predicate ObjectTyped(t: Table, c: string): (r: bool)
    ensures r <==> t.rows == [] || exists row: Row :: row in t.rows && c in row && row[c].Str?
    ensures t.rows != [] && (forall row: Row :: row in t.rows ==> c !in row || !row[c].Str?) ==> !r
  {
    |t.rows| == 0 || exists i :: 0 <= i < |t.rows| && c in t.rows[i] && t.rows[i][c].Str?
  }

  /** The outcome of a statistical routine: a number, or NaN. */
  datatype Stat = Finite(v: real) | NaN
  {
    /** `stat <= bound`; false for NaN, as in Python. */
    predicate AtMost(bound: real)
    {
      Finite? && v <= bound
    }

    /** `stat < bound`; false for NaN, as in Python. */
    predicate Below(bound: real)
    {
      Finite? && v < bound
    }
  }

  /** Why a stage stops: the exceptions and failed assertions of the stages. */
  datatype Failure =
    | MissingColumn(name: string)        // KeyError on `df[name]`
    | NoTargetVariable                   // IndexError on `dependent_feature[0]`
    | NoCommonColumns                    // pandas refuses a merge without keys
    | MissingValuesInCleanedRaw          // the null check before selection
    | DuplicatesInCleanedRaw             // the duplicate check before selection
    | NotAnInteger(value: Value)         // ValueError from `int(...)`
    | CatSchemaMismatch                  // final categorical list vs schema
    | NumSchemaMismatch                  // final numerical list vs schema

  datatype Result<T> = Ok(value: T) | Err(failure: Failure)
}
