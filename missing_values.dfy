/** The missing-value cleanup and the merge of the two sources
    (DataPreprocessing._impute_missing_values and _merge_dataframes). Both
    sources mark a missing cell with -99999. The internal source loses the
    rows whose age of oldest trade line is missing; the external source first
    loses every column with more than 10000 missing cells, then every row
    with a missing cell in a remaining column. The two are then inner-joined
    on all the columns they share. */
module MissingValues {
  import opened Seqs
  import opened Frames

  const AgeOldestTl := "age_oldest_tl"

  /** A column with more missing cells than this is dropped (strictly more). */
  const SentinelCountLimit := 10000

  /** The row holds -99999 in column `c`, as a row mask. */
  function SentinelIn(c: string): Row -> bool
  {
    row => HasSentinel(row, c)
  }

  /** How many rows hold -99999 in column `c`. */
  function SentinelCount(rows: seq<Row>, c: string): (n: nat)
    ensures n <= |rows|
  {
    if rows == [] then 0
    else (if HasSentinel(rows[0], c) then 1 else 0) + SentinelCount(rows[1..], c)
  }

  /** The count is zero exactly when no row holds -99999 in the column. */
  lemma {:induction false} SentinelCountZero(rows: seq<Row>, c: string)
    ensures SentinelCount(rows, c) == 0 <==> forall i :: 0 <= i < |rows| ==> !HasSentinel(rows[i], c)
  {
    if rows != [] {
      SentinelCountZero(rows[1..], c);
      assert forall i :: 0 < i < |rows| ==> rows[i] == rows[1..][i - 1];
    }
  }

  /** The count is the length of the selection of the rows holding -99999. */
  lemma {:induction false} SentinelCountIsFilter(rows: seq<Row>, c: string)
    ensures SentinelCount(rows, c) == |Filter(rows, SentinelIn(c))|
  {
    if rows != [] {
      SentinelCountIsFilter(rows[1..], c);
    }
  }

  /** `df2.loc[df2[c] == -99999].shape[0]`: the count is the number of rows
      the mask selects. */
  lemma SentinelCountIsSelection(t: Table, c: string)
    requires WellFormed(t)
    ensures SentinelCount(t.rows, c) == |SelectRows(t, SentinelIn(c)).rows|
  {
    SentinelCountIsFilter(t.rows, c);
  }

  /** The row does not hold -99999 in column `c`. */
  function NotSentinelIn(c: string): Row -> bool
  {
    row => !HasSentinel(row, c)
  }

  /** The row holds -99999 in none of the columns `cols`. */
  function NoSentinelAmong(cols: seq<string>): Row -> bool
  {
    row => forall c :: c in cols ==> !HasSentinel(row, c)
  }

  /** The internal cleanup: the rows whose `age_oldest_tl` is not -99999, in
      their order, with every column; the column must exist. */
  function CleanInternal(t: Table): (r: Result<Table>)
    requires WellFormed(t)
    ensures r.Ok? <==> AgeOldestTl in t.columns
    ensures r.Err? ==> r.failure == MissingColumn(AgeOldestTl)
    ensures r.Ok? ==> WellFormed(r.value) && r.value.columns == t.columns
    ensures r.Ok? ==> IsSubsequence(r.value.rows, t.rows)
    ensures r.Ok? ==> forall row ::
      multiset(r.value.rows)[row] == (if HasSentinel(row, AgeOldestTl) then 0 else multiset(t.rows)[row])
  {
    if AgeOldestTl !in t.columns then Err(MissingColumn(AgeOldestTl))
    else
      FilterIsSubsequence(t.rows, NotSentinelIn(AgeOldestTl));
      FilterCounts(t.rows, NotSentinelIn(AgeOldestTl));
      Ok(SelectRows(t, NotSentinelIn(AgeOldestTl)))
  }

  /** Cleaning the internal source again changes nothing. */
  lemma CleanInternalIdempotent(t: Table)
    requires WellFormed(t) && AgeOldestTl in t.columns
    ensures CleanInternal(CleanInternal(t).value) == CleanInternal(t)
  {
    FilterIdempotent(t.rows, NotSentinelIn(AgeOldestTl));
  }

  /** The column has more than 10000 missing cells in `t`. */
  function OverLimit(t: Table): string -> bool
  {
    c => SentinelCount(t.rows, c) > SentinelCountLimit
  }

  /** `columns_to_be_removed`: the columns with more than 10000 missing
      cells in `t`, in column order. */
  function MarkedColumns(t: Table): (r: seq<string>)
    ensures forall c :: c in r <==> c in t.columns && SentinelCount(t.rows, c) > SentinelCountLimit
    ensures IsSubsequence(r, t.columns)
  {
    FilterIsSubsequence(t.columns, OverLimit(t));
    FilterMembers(t.columns, OverLimit(t));
    Filter(t.columns, OverLimit(t))
  }

  /** The external cleanup as a whole: the columns to remove are decided on
      the original table, they are removed, and then every row with -99999
      in a remaining column is removed. */
  function CleanExternal(t: Table): (r: Table)
    requires WellFormed(t)
    ensures WellFormed(r)
    ensures forall c :: c in r.columns <==> c in t.columns && SentinelCount(t.rows, c) <= SentinelCountLimit
    ensures IsSubsequence(r.columns, t.columns)
    ensures r.rows == Filter(Project(t, r.columns).rows, NoSentinelAmong(r.columns))
    ensures forall i, c :: 0 <= i < |r.rows| && c in r.columns ==> !HasSentinel(r.rows[i], c)
  {
    var removed := MarkedColumns(t);
    var reduced := DropColumns(t, removed);
    var cleaned := SelectRows(reduced, NoSentinelAmong(reduced.columns));
    FilterMembers(reduced.rows, NoSentinelAmong(reduced.columns));
    assert forall i :: 0 <= i < |cleaned.rows| ==> cleaned.rows[i] in cleaned.rows;
    cleaned
  }

  /** When no -99999 is left, the external cleanup changes nothing. */
  lemma CleanExternalIdempotent(t: Table)
    requires WellFormed(t)
    ensures CleanExternal(CleanExternal(t)) == CleanExternal(t)
  {
    var r := CleanExternal(t);
    forall c | c in r.columns ensures SentinelCount(r.rows, c) == 0 {
      SentinelCountZero(r.rows, c);
    }
    var marked := MarkedColumns(r);
    assert forall k :: 0 <= k < |marked| ==> marked[k] in marked;
    assert marked == [];
    var reduced := DropColumns(r, []);
    FilterKeepsAll(r.columns, NotIn([]));
    assert reduced.columns == r.columns;
    forall i | 0 <= i < |r.rows| ensures reduced.rows[i] == r.rows[i] {
      assert reduced.rows[i].Keys == r.rows[i].Keys;
    }
    assert reduced == r;
    FilterKeepsAll(r.rows, NoSentinelAmong(r.columns));
  }

  /** The first loop of the external cleanup. */
  method ColumnsToRemove(t: Table) returns (removed: seq<string>)
    requires WellFormed(t)
    ensures removed == MarkedColumns(t)
  {
    removed := [];
    for i := 0 to |t.columns|
      invariant removed == Filter(t.columns[..i], OverLimit(t))
    {
      var col := t.columns[i];
      FilterAppend(t.columns[..i], col, OverLimit(t));
      assert t.columns[..i + 1] == t.columns[..i] + [col];
      if SentinelCount(t.rows, col) > SentinelCountLimit {
        removed := removed + [col];
      }
    }
    assert t.columns[..|t.columns|] == t.columns;
  }

  /** Checking no column at all keeps every row. */
  lemma NoSentinelAmongNone(rows: seq<Row>)
    ensures Filter(rows, NoSentinelAmong([])) == rows
  {
    FilterKeepsAll(rows, NoSentinelAmong([]));
  }

  /** Checking one more column is filtering once more, by that column. */
  lemma NoSentinelAmongSnoc(rows: seq<Row>, cols: seq<string>, i: nat)
    requires i < |cols|
    ensures Filter(Filter(rows, NoSentinelAmong(cols[..i])), NotSentinelIn(cols[i])) == Filter(rows, NoSentinelAmong(cols[..i + 1]))
  {
    assert cols[..i + 1] == cols[..i] + [cols[i]];
    FilterCompose(rows, NoSentinelAmong(cols[..i]), NotSentinelIn(cols[i]), NoSentinelAmong(cols[..i + 1]));
  }

  /** The second loop: filter the table column by column, each filter
      applied to what the previous ones left. */
  method DropSentinelRows(t: Table) returns (r: Table)
    requires WellFormed(t)
    ensures WellFormed(r) && r.columns == t.columns
    ensures r.rows == Filter(t.rows, NoSentinelAmong(t.columns))
  {
    r := t;
    NoSentinelAmongNone(t.rows);
    for i := 0 to |t.columns|
      invariant WellFormed(r) && r.columns == t.columns
      invariant r.rows == Filter(t.rows, NoSentinelAmong(t.columns[..i]))
    {
      var col := r.columns[i];
      NoSentinelAmongSnoc(t.rows, t.columns, i);
      r := SelectRows(r, NotSentinelIn(col));
    }
    assert t.columns[..|t.columns|] == t.columns;
  }

  /** The external cleanup as the source performs it: the removal loop, one
      drop of all marked columns, then the row-filter loop. */
  method CleanExternalData(t: Table) returns (r: Table, removed: seq<string>)
    requires WellFormed(t)
    ensures r == CleanExternal(t)
    ensures removed == MarkedColumns(t)
  {
    removed := ColumnsToRemove(t);
    var reduced := DropColumns(t, removed);
    r := DropSentinelRows(reduced);
  }

  /** `common_features`: the internal columns that the external table also
      has, in internal order. */
  function CommonFeatures(internalColumns: seq<string>, externalColumns: seq<string>): (r: seq<string>)
    ensures forall c :: c in r <==> c in internalColumns && c in externalColumns
    ensures IsSubsequence(r, internalColumns)
    ensures Distinct(internalColumns) ==> Distinct(r)
  {
    FilterIsSubsequence(internalColumns, c => c in externalColumns);
    FilterMembers(internalColumns, c => c in externalColumns);
    if Distinct(internalColumns) then FilterDistinct(internalColumns, c => c in externalColumns); Filter(internalColumns, c => c in externalColumns)
    else Filter(internalColumns, c => c in externalColumns)
  }

  datatype Imputed = Imputed(internal: Table, external: Table, commonFeatures: seq<string>)

  /** `_impute_missing_values`: both cleanups and the merge keys. */
  method ImputeMissingValues(internalData: Table, externalData: Table) returns (r: Result<Imputed>)
    requires WellFormed(internalData) && WellFormed(externalData)
    ensures r.Ok? <==> AgeOldestTl in internalData.columns
    ensures r.Err? ==> r.failure == MissingColumn(AgeOldestTl)
    ensures r.Ok? ==> r.value.internal == CleanInternal(internalData).value
    ensures r.Ok? ==> r.value.external == CleanExternal(externalData)
    ensures r.Ok? ==> r.value.commonFeatures == CommonFeatures(internalData.columns, CleanExternal(externalData).columns)
  {
    var cleanedInternal := CleanInternal(internalData);
    if cleanedInternal.Err? {
      return Err(cleanedInternal.failure);
    }
    var df1 := cleanedInternal.value;
    var df2, _ := CleanExternalData(externalData);
    var commonFeatures := CommonFeatures(df1.columns, df2.columns);
    return Ok(Imputed(df1, df2, commonFeatures));
  }

  /** Two rows agree on every key column. */
  predicate Agree(left: Row, right: Row, keys: seq<string>)
  {
    forall k :: k in keys ==> k in left && k in right && left[k] == right[k]
  }

  /** A left and a right row agree on the keys and, joined, give `row`. */
  function JoinsInto(keys: seq<string>, row: Row): (Row, Row) -> bool
  {
    (left, right) => Agree(left, right, keys) && row == left + right
  }

  /** The joined rows of one left row: one per agreeing right row. */
  function MatchesOf(left: Row, rights: seq<Row>, keys: seq<string>): (r: seq<Row>)
    ensures forall row :: row in r <==> exists j :: 0 <= j < |rights| && Agree(left, rights[j], keys) && row == left + rights[j]
  {
    if rights == [] then []
    else
      assert forall j :: 0 < j < |rights| ==> rights[j] == rights[1..][j - 1];
      (if Agree(left, rights[0], keys) then [left + rights[0]] else []) + MatchesOf(left, rights[1..], keys)
  }

  /** The inner join of two row lists on `keys`, left row by left row. */
  function JoinRows(lefts: seq<Row>, rights: seq<Row>, keys: seq<string>): (r: seq<Row>)
    ensures forall row :: row in r <==>
      exists i, j :: 0 <= i < |lefts| && 0 <= j < |rights| && Agree(lefts[i], rights[j], keys) && row == lefts[i] + rights[j]
  {
    if lefts == [] then []
    else
      assert forall i :: 0 < i < |lefts| ==> lefts[i] == lefts[1..][i - 1];
      MatchesOf(lefts[0], rights, keys) + JoinRows(lefts[1..], rights, keys)
  }

  /** A left row yields `row` once for every right row, from position `lo`
      on, that agrees with it on the keys and joins into `row`. */
  lemma {:induction false} MatchesOfCount(left: Row, rights: seq<Row>, keys: seq<string>, row: Row, lo: nat)
    requires lo <= |rights|
    ensures multiset(MatchesOf(left, rights[lo..], keys))[row] == |Positions(rights, Fix(left, JoinsInto(keys, row)), lo)|
    decreases |rights| - lo
  {
    if lo == |rights| {
      assert Positions(rights, Fix(left, JoinsInto(keys, row)), lo) == {};
    } else {
      var here := Fix(left, JoinsInto(keys, row));
      MatchesOfCount(left, rights, keys, row, lo + 1);
      PositionsStep(rights, here, lo);
      var tail := rights[lo..];
      assert tail[1..] == rights[lo + 1..];
      var first := if Agree(left, tail[0], keys) then [left + tail[0]] else [];
      assert MatchesOf(left, tail, keys) == first + MatchesOf(left, tail[1..], keys);
      assert multiset(first)[row] == if here(rights[lo]) then 1 else 0;
    }
  }

  /** The join yields `row` once for every (left, right) pair, with the left
      position from `lo` on, that agrees on the keys and joins into `row`. */
  lemma {:induction false} JoinRowsCount(lefts: seq<Row>, rights: seq<Row>, keys: seq<string>, row: Row, lo: nat)
    requires lo <= |lefts|
    ensures multiset(JoinRows(lefts[lo..], rights, keys))[row] == |PairPositions(lefts, rights, JoinsInto(keys, row), lo)|
    decreases |lefts| - lo
  {
    if lo == |lefts| {
      assert PairPositions(lefts, rights, JoinsInto(keys, row), lo) == {};
    } else {
      JoinRowsCount(lefts, rights, keys, row, lo + 1);
      MatchesOfCount(lefts[lo], rights, keys, row, 0);
      PairPositionsStep(lefts, rights, JoinsInto(keys, row), lo);
      assert lefts[lo..][1..] == lefts[lo + 1..];
      assert rights[0..] == rights;
    }
  }

  /** Every row occurs in the join once per agreeing pair that gives it. */
  lemma JoinRowsCountAll(lefts: seq<Row>, rights: seq<Row>, keys: seq<string>)
    ensures forall row :: multiset(JoinRows(lefts, rights, keys))[row] == |PairPositions(lefts, rights, JoinsInto(keys, row), 0)|
  {
    assert lefts[0..] == lefts;
    forall row ensures multiset(JoinRows(lefts, rights, keys))[row] == |PairPositions(lefts, rights, JoinsInto(keys, row), 0)| {
      JoinRowsCount(lefts, rights, keys, row, 0);
    }
  }

  /** The internal columns followed by the external-only ones repeat no name. */
  lemma MergedColumnsDistinct(c1: seq<string>, c2: seq<string>)
    requires Distinct(c1) && Distinct(c2)
    ensures Distinct(c1 + Filter(c2, c => c !in c1))
  {
    var rest := Filter(c2, c => c !in c1);
    var columns := c1 + rest;
    FilterDistinct(c2, c => c !in c1);
    FilterMembers(c2, c => c !in c1);
    forall i, j | 0 <= i < j < |columns| ensures columns[i] != columns[j] {
      if j < |c1| {
      } else if i >= |c1| {
        assert columns[i] == rest[i - |c1|] && columns[j] == rest[j - |c1|];
      } else {
        assert columns[j] in rest;
      }
    }
  }

  /** The joined rows, under the internal columns followed by the
      external-only ones, form a well-formed table. */
  lemma JoinedTableWellFormed(t1: Table, t2: Table, keys: seq<string>)
    requires WellFormed(t1) && WellFormed(t2)
    ensures WellFormed(Table(t1.columns + Filter(t2.columns, c => c !in t1.columns), JoinRows(t1.rows, t2.rows, keys)))
  {
    var rows := JoinRows(t1.rows, t2.rows, keys);
    var columns := t1.columns + Filter(t2.columns, c => c !in t1.columns);
    MergedColumnsDistinct(t1.columns, t2.columns);
    FilterMembers(t2.columns, c => c !in t1.columns);
    forall k | 0 <= k < |rows| ensures rows[k].Keys == set c | c in columns {
      assert rows[k] in rows;
      var i, j :| 0 <= i < |t1.rows| && 0 <= j < |t2.rows| && rows[k] == t1.rows[i] + t2.rows[j];
      assert t1.rows[i].Keys == set c | c in t1.columns;
      assert t2.rows[j].Keys == set c | c in t2.columns;
    }
  }

  /** `pd.merge(df1, df2, how='inner', on=common_features)`, where the keys
      are all the columns the two tables share: the internal columns, then
      the external-only columns; pandas refuses a merge without keys. */
  function InnerJoin(t1: Table, t2: Table, keys: seq<string>): (r: Result<Table>)
    requires WellFormed(t1) && WellFormed(t2)
    requires keys == CommonFeatures(t1.columns, t2.columns)
    ensures r.Ok? <==> keys != []
    ensures r.Err? ==> r.failure == NoCommonColumns
    ensures r.Ok? ==> WellFormed(r.value)
    ensures r.Ok? ==> r.value.columns == t1.columns + Filter(t2.columns, c => c !in t1.columns)
    ensures r.Ok? ==> forall row :: row in r.value.rows <==>
      exists i, j :: 0 <= i < |t1.rows| && 0 <= j < |t2.rows| && Agree(t1.rows[i], t2.rows[j], keys) && row == t1.rows[i] + t2.rows[j]
    ensures r.Ok? ==> forall row :: multiset(r.value.rows)[row] == |PairPositions(t1.rows, t2.rows, JoinsInto(keys, row), 0)|
  {
    if keys == [] then Err(NoCommonColumns)
    else
      var rest := Filter(t2.columns, c => c !in t1.columns);
      var columns := t1.columns + rest;
      var rows := JoinRows(t1.rows, t2.rows, keys);
      JoinRowsCountAll(t1.rows, t2.rows, keys);
      JoinedTableWellFormed(t1, t2, keys);
      Ok(Table(columns, rows))
  }

  /** A merged row agrees with its internal row on every internal column
      and with its external row on every external column. */
  lemma MergedRowAgreesWithBoth(t1: Table, t2: Table, i: nat, j: nat)
    requires WellFormed(t1) && WellFormed(t2)
    requires i < |t1.rows| && j < |t2.rows|
    requires Agree(t1.rows[i], t2.rows[j], CommonFeatures(t1.columns, t2.columns))
    ensures forall c :: c in t1.columns ==> c in t1.rows[i] + t2.rows[j] && (t1.rows[i] + t2.rows[j])[c] == t1.rows[i][c]
    ensures forall c :: c in t2.columns ==> c in t1.rows[i] + t2.rows[j] && (t1.rows[i] + t2.rows[j])[c] == t2.rows[j][c]
  {
    var keys := CommonFeatures(t1.columns, t2.columns);
    assert t1.rows[i].Keys == set c | c in t1.columns;
    assert t2.rows[j].Keys == set c | c in t2.columns;
    forall c | c in t1.columns ensures c in t1.rows[i] + t2.rows[j] && (t1.rows[i] + t2.rows[j])[c] == t1.rows[i][c] {
      if c in t2.columns {
        assert c in keys;
      }
    }
  }

  /** `_merge_dataframes`: clean both sources, then join them. */
  method MergeDataframes(internalData: Table, externalData: Table) returns (r: Result<Table>)
    requires WellFormed(internalData) && WellFormed(externalData)
    ensures AgeOldestTl !in internalData.columns ==> r == Err(MissingColumn(AgeOldestTl))
    ensures AgeOldestTl in internalData.columns ==>
      var df1 := CleanInternal(internalData).value;
      var df2 := CleanExternal(externalData);
      r == InnerJoin(df1, df2, CommonFeatures(df1.columns, df2.columns))
  {
    var imputed := ImputeMissingValues(internalData, externalData);
    if imputed.Err? {
      return Err(imputed.failure);
    }
    var df1, df2, commonFeatures := imputed.value.internal, imputed.value.external, imputed.value.commonFeatures;
    r := InnerJoin(df1, df2, commonFeatures);
  }

  /** An internal table whose column `x`, which the external table lacks,
      holds -99999 in a row that passes the internal cleanup. */
  const SentinelInternal := Table([AgeOldestTl, "k", "x"], [map[AgeOldestTl := Int(1), "k" := Int(0), "x" := Sentinel]])

  /** An external table without -99999 that matches that row on `k`. */
  const SentinelExternal := Table(["k"], [map["k" := Int(0)]])

  lemma SentinelInternalKept()
    ensures WellFormed(SentinelInternal)
    ensures CleanInternal(SentinelInternal) == Ok(SentinelInternal)
  {
    var t := SentinelInternal;
    assert WellFormed(t);
    FilterKeepsAll(t.rows, NotSentinelIn(AgeOldestTl));
  }

  lemma SentinelExternalKept()
    ensures WellFormed(SentinelExternal)
    ensures CleanExternal(SentinelExternal) == SentinelExternal
  {
    var t := SentinelExternal;
    assert WellFormed(t);
    assert SentinelCount(t.rows, "k") == 0;
    var r := CleanExternal(t);
    assert r.columns == ["k"];
    var p := Project(t, ["k"]);
    assert p.rows[0] == t.rows[0];
    assert NoSentinelAmong(["k"])(p.rows[0]);
    assert p.rows == [p.rows[0]];
  }

  /** Only `age_oldest_tl` is checked in the internal source, so a merged row
      can still hold -99999 in a column only the internal source has. */
  lemma MergedTableMayHoldSentinel()
    ensures WellFormed(SentinelInternal) && WellFormed(SentinelExternal)
    ensures CleanInternal(SentinelInternal).Ok?
    ensures var df1 := CleanInternal(SentinelInternal).value;
      var df2 := CleanExternal(SentinelExternal);
      var merged := InnerJoin(df1, df2, CommonFeatures(df1.columns, df2.columns));
      merged.Ok? && exists row :: row in merged.value.rows && HasSentinel(row, "x")
  {
    SentinelInternalKept();
    SentinelExternalKept();
    var t1, t2 := SentinelInternal, SentinelExternal;
    var keys := CommonFeatures(t1.columns, t2.columns);
    assert "k" in keys && forall c :: c in keys ==> c == "k";
    assert Agree(t1.rows[0], t2.rows[0], keys);
    var row := t1.rows[0] + t2.rows[0];
    assert HasSentinel(row, "x");
  }
}
