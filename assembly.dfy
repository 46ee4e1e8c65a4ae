/** The last step of preprocessing (DataPreprocessing.get_preprocessed_data):
    select the retained features, relabel the education levels as numbers,
    move `education` from the categorical to the numerical features, and
    check both lists against the declared schema. */
module Assembly {
  import opened Seqs
  import opened Sorting
  import opened Frames
  import opened FeatureSelection

  const Education := "education"

  /** The relabelling table: each level number with the names it replaces. */
  const EducationMapping: seq<(int, seq<string>)> := [
    (1, ["SSC", "OTHERS"]),
    (2, ["12TH"]),
    (3, ["UNDER GRADUATE", "GRADUATE", "PROFESSIONAL"]),
    (4, ["POST-GRADUATE"])
  ]

  /** The encoding the prediction form uses for the same levels. */
  const FormEncoding: map<string, int> := map[
    "SSC" := 1, "OTHERS" := 1, "12TH" := 2,
    "UNDER GRADUATE" := 3, "GRADUATE" := 3, "PROFESSIONAL" := 3,
    "POST-GRADUATE" := 4
  ]

  // ---------------------------------------------------------------------
  // Python's int() on a string

  predicate IsDigit(c: char)
  {
    '0' <= c <= '9'
  }

  predicate AllDigits(s: string)
  {
    forall i :: 0 <= i < |s| ==> IsDigit(s[i])
  }

  /** The number a string of decimal digits denotes. */
  function DigitsValue(s: string): nat
    requires AllDigits(s)
  {
    if s == [] then 0
    else DigitsValue(s[..|s| - 1]) * 10 + (s[|s| - 1] as int - '0' as int)
  }

  /** `int(s)`: an optional sign followed by decimal digits; anything else
      raises ValueError. */
  function ParseInt(s: string): (r: Result<int>)
    ensures r.Ok? <==> (s != [] && AllDigits(s)) || (|s| > 1 && (s[0] == '+' || s[0] == '-') && AllDigits(s[1..]))
    ensures r.Err? ==> r.failure == NotAnInteger(Str(s))
    ensures r.Ok? && s[0] == '-' ==> r.value <= 0
    ensures r.Ok? && s[0] != '-' ==> r.value >= 0
  {
    if s != [] && AllDigits(s) then Ok(DigitsValue(s))
    else if |s| > 1 && s[0] == '-' && AllDigits(s[1..]) then Ok(-(DigitsValue(s[1..]) as int))
    else if |s| > 1 && s[0] == '+' && AllDigits(s[1..]) then Ok(DigitsValue(s[1..]))
    else Err(NotAnInteger(Str(s)))
  }

  /** A leading zero does not change the number. */
  lemma {:induction false} LeadingZero(d: string)
    requires AllDigits(d)
    ensures AllDigits("0" + d) && DigitsValue("0" + d) == DigitsValue(d)
  {
    var z := "0" + d;
    assert AllDigits(z) by {
      forall i | 0 <= i < |z| ensures IsDigit(z[i]) {
        if i > 0 {
          assert z[i] == d[i - 1];
        }
      }
    }
    if d != [] {
      LeadingZero(d[..|d| - 1]);
      assert z[..|z| - 1] == "0" + d[..|d| - 1];
      assert z[|z| - 1] == d[|d| - 1];
    }
  }

  /** For a non-empty string of digits `d`: `int(d)` succeeds, and a leading
      zero or `+` leaves the value alone while `-` negates it. */
  lemma ParseIntPrefixes(d: string)
    requires d != [] && AllDigits(d)
    ensures ParseInt(d) == Ok(DigitsValue(d))
    ensures ParseInt("0" + d) == ParseInt(d)
    ensures ParseInt("+" + d) == ParseInt(d)
    ensures ParseInt("-" + d) == Ok(-ParseInt(d).value)
  {
    LeadingZero(d);
    assert ("+" + d)[1..] == d && ("-" + d)[1..] == d;
    assert !IsDigit(("+" + d)[0]) && !IsDigit(("-" + d)[0]);
  }

  /** `str(n)` for a natural number. */
  function Decimal(n: nat): (s: string)
    ensures s != [] && AllDigits(s)
  {
    if n < 10 then [('0' as int + n) as char]
    else Decimal(n / 10) + [('0' as int + n % 10) as char]
  }

  /** `str(n)` for an integer. */
  function IntToString(n: int): string
  {
    if n < 0 then "-" + Decimal(-n) else Decimal(n)
  }

  lemma {:induction false} DecimalValue(n: nat)
    ensures DigitsValue(Decimal(n)) == n
  {
    if n >= 10 {
      DecimalValue(n / 10);
      var s := Decimal(n);
      assert s[..|s| - 1] == Decimal(n / 10);
    }
  }

  /** `int(str(n)) == n`. */
  lemma ParseIntToString(n: int)
    ensures ParseInt(IntToString(n)) == Ok(n)
  {
    if n < 0 {
      DecimalValue(-n);
      var s := IntToString(n);
      assert s[0] == '-' && s[1..] == Decimal(-n);
      assert !IsDigit(s[0]);
    } else {
      DecimalValue(n);
    }
  }

  // ---------------------------------------------------------------------
  // The education map

  /** The relabelling loop: each level in turn replaces the value by its
      number when the value is one of the level's names. A number, or a
      missing value, is never one of the names. */
  function Relabel(v: Value, tiers: seq<(int, seq<string>)>): (r: Value)
    ensures r == v || (v.Str? && exists k :: 0 <= k < |tiers| && v.s in tiers[k].1 && r == Int(tiers[k].0))
    ensures v.Str? && (exists k :: 0 <= k < |tiers| && v.s in tiers[k].1) ==> r.Int?
    decreases |tiers|
  {
    if tiers == [] then v
    else
      assert forall k :: 0 <= k < |tiers| - 1 ==> tiers[1..][k] == tiers[k + 1];
      Relabel(if v.Str? && v.s in tiers[0].1 then Int(tiers[0].0) else v, tiers[1..])
  }

  /** A name is replaced by the number of the first level that lists it. */
  lemma {:induction false} RelabelFirstMatch(s: string, tiers: seq<(int, seq<string>)>, k: nat)
    requires k < |tiers| && s in tiers[k].1
    requires forall j :: 0 <= j < k ==> s !in tiers[j].1
    ensures Relabel(Str(s), tiers) == Int(tiers[k].0)
  {
    if k > 0 {
      assert forall j :: 0 <= j < k - 1 ==> tiers[1..][j] == tiers[j + 1];
      RelabelFirstMatch(s, tiers[1..], k - 1);
    }
  }

  /** A name no level lists is left as it is. */
  lemma {:induction false} RelabelNoMatch(s: string, tiers: seq<(int, seq<string>)>)
    requires forall j :: 0 <= j < |tiers| ==> s !in tiers[j].1
    ensures Relabel(Str(s), tiers) == Str(s)
  {
    if tiers != [] {
      assert forall j :: 0 <= j < |tiers| - 1 ==> tiers[1..][j] == tiers[j + 1];
      RelabelNoMatch(s, tiers[1..]);
    }
  }

  /** `__apply_education_map`: relabel, then `int(...)`. */
  function ApplyEducationMap(v: Value): (r: Result<int>)
    ensures r.Ok? <==> v.Int? || (v.Str? && (IsLevelName(v.s) || ParseInt(v.s).Ok?))
    ensures v.Int? ==> r == Ok(v.i)
    ensures v.Str? && IsLevelName(v.s) ==> r.Ok? && 1 <= r.value <= 4
    ensures r.Err? ==> r.failure == NotAnInteger(v)
  {
    match Relabel(v, EducationMapping)
    case Int(n) => Ok(n)
    case Str(s) => ParseInt(s)
    case Null => Err(NotAnInteger(Null))
  }

  predicate IsLevelName(s: string)
  {
    exists k :: 0 <= k < |EducationMapping| && s in EducationMapping[k].1
  }

  /** Each listed name maps to its level: SSC and OTHERS to 1, 12TH to 2,
      UNDER GRADUATE, GRADUATE and PROFESSIONAL to 3, POST-GRADUATE to 4. */
  lemma EducationLevels(s: string, k: nat)
    requires k < |EducationMapping| && s in EducationMapping[k].1
    ensures ApplyEducationMap(Str(s)) == Ok(EducationMapping[k].0)
  {
    RelabelFirstMatch(s, EducationMapping, k);
  }

  /** Any other string is read as an integer, and fails unless it is one. */
  lemma OtherStringsParsed(s: string)
    requires !IsLevelName(s)
    ensures ApplyEducationMap(Str(s)) == ParseInt(s)
    ensures !ParseInt(s).Ok? ==> ApplyEducationMap(Str(s)) == Err(NotAnInteger(Str(s)))
  {
    RelabelNoMatch(s, EducationMapping);
  }

  /** Applying the map to its own output changes nothing. */
  lemma EducationMapIdempotent(v: Value)
    requires ApplyEducationMap(v).Ok?
    ensures ApplyEducationMap(Int(ApplyEducationMap(v).value)) == ApplyEducationMap(v)
  {
  }

  /** The table agrees with the prediction form's encoding, name for name. */
  lemma FormEncodingAgrees(s: string)
    ensures s in FormEncoding <==> IsLevelName(s)
    ensures s in FormEncoding ==> ApplyEducationMap(Str(s)) == Ok(FormEncoding[s])
  {
    if s in FormEncoding {
      var k := if s in EducationMapping[0].1 then 0
        else if s in EducationMapping[1].1 then 1
        else if s in EducationMapping[2].1 then 2
        else 3;
      EducationLevels(s, k);
    }
    if IsLevelName(s) {
      var k :| 0 <= k < |EducationMapping| && s in EducationMapping[k].1;
      assert s in FormEncoding;
    }
  }

  /** `df_selected_features['education']`: the column, row by row. */
  function EducationCells(rows: seq<Row>): (cells: seq<Value>)
    requires forall i :: 0 <= i < |rows| ==> Education in rows[i]
    ensures |cells| == |rows| && forall i :: 0 <= i < |rows| ==> cells[i] == rows[i][Education]
  {
    seq(|rows|, i requires 0 <= i < |rows| => rows[i][Education])
  }

  /** Cell `i` is the first the map rejects. */
  predicate FirstFailure(cells: seq<Value>, i: nat)
    requires i < |cells|
  {
    ApplyEducationMap(cells[i]).Err? && forall j :: 0 <= j < i ==> ApplyEducationMap(cells[j]).Ok?
  }

  /** A failure first met in the cells after an accepted head cell is the
      first failure of the whole column. */
  lemma FirstFailureLift(cells: seq<Value>, failure: Failure)
    requires cells != [] && ApplyEducationMap(cells[0]).Ok?
    requires exists i :: (0 <= i < |cells| - 1 && FirstFailure(cells[1..], i) &&
      failure == NotAnInteger(cells[1..][i]))
    ensures exists i :: 0 <= i < |cells| && FirstFailure(cells, i) && failure == NotAnInteger(cells[i])
  {
    var i :| 0 <= i < |cells| - 1 && FirstFailure(cells[1..], i) && failure == NotAnInteger(cells[1..][i]);
    assert forall j :: 0 < j < |cells| ==> cells[j] == cells[1..][j - 1];
    assert FirstFailure(cells, i + 1);
  }

  /** `.apply(__apply_education_map)`: each cell mapped in order; the first
      cell the map rejects raises its error. */
  function EncodeEducation(cells: seq<Value>): (r: Result<seq<int>>)
    ensures r.Ok? <==> forall i :: 0 <= i < |cells| ==> ApplyEducationMap(cells[i]).Ok?
    ensures r.Ok? ==> (|r.value| == |cells| &&
      forall i :: 0 <= i < |cells| ==> r.value[i] == ApplyEducationMap(cells[i]).value)
    ensures r.Err? ==> exists i :: 0 <= i < |cells| && FirstFailure(cells, i) && r.failure == NotAnInteger(cells[i])
  {
    if cells == [] then Ok([])
    else
      var head := ApplyEducationMap(cells[0]);
      if head.Err? then
        assert FirstFailure(cells, 0);
        Err(head.failure)
      else
        var rest := EncodeEducation(cells[1..]);
        if rest.Err? then
          FirstFailureLift(cells, rest.failure);
          Err(rest.failure)
        else
          assert forall i :: 0 < i < |cells| ==> cells[i] == cells[1..][i - 1];
          Ok([head.value] + rest.value)
  }

  /** When encoding the education column of some rows fails, the error names
      the value of the first row the map rejects. */
  lemma EncodeFailureRow(rows: seq<Row>)
    requires forall i :: 0 <= i < |rows| ==> Education in rows[i]
    requires EncodeEducation(EducationCells(rows)).Err?
    ensures exists i :: (0 <= i < |rows| && EncodeEducation(EducationCells(rows)).failure == NotAnInteger(rows[i][Education]) &&
      ApplyEducationMap(rows[i][Education]).Err? &&
      forall j :: 0 <= j < i ==> ApplyEducationMap(rows[j][Education]).Ok?)
  {
    var cells := EducationCells(rows);
    var i :| 0 <= i < |cells| && FirstFailure(cells, i) && EncodeEducation(cells).failure == NotAnInteger(cells[i]);
  }

  /** The encoded column written back into the rows
      (`df_selected_features['education'] = ...`). */
  function MapEducation(rows: seq<Row>): (r: Result<seq<Row>>)
    requires forall i :: 0 <= i < |rows| ==> Education in rows[i]
    ensures r.Ok? <==> forall i :: 0 <= i < |rows| ==> ApplyEducationMap(rows[i][Education]).Ok?
    ensures r.Ok? ==> |r.value| == |rows|
    ensures r.Ok? ==> forall i :: 0 <= i < |rows| ==>
      r.value[i] == rows[i][Education := Int(ApplyEducationMap(rows[i][Education]).value)]
    ensures r.Err? ==> exists i :: (0 <= i < |rows| && FirstFailure(EducationCells(rows), i) &&
      r.failure == NotAnInteger(rows[i][Education]))
  {
    var codes := EncodeEducation(EducationCells(rows));
    if codes.Err? then Err(codes.failure)
    else Ok(seq(|rows|, i requires 0 <= i < |rows| => rows[i][Education := Int(codes.value[i])]))
  }

  // ---------------------------------------------------------------------
  // Final feature lists

  /** `retained_num_features + ['education']` unless it is already there. */
  function WithEducation(num: seq<string>): (r: seq<string>)
    ensures |r| == |num| + (if Education in num then 0 else 1)
    ensures Education in r && r[..|num|] == num
    ensures forall c :: c in r <==> c in num || c == Education
    ensures Distinct(num) ==> Distinct(r)
  {
    if Education in num then num
    else
      assert (num + [Education])[..|num|] == num;
      if Distinct(num) then DistinctConcat(num, [Education]); num + [Education]
      else num + [Education]
  }

  /** After the move, `education` is numerical and not categorical; the
      other categorical features keep their order, and the numerical list
      only gains `education` at its end. So both assertions of the source
      always hold. */
  lemma EducationMoved(cat: seq<string>, num: seq<string>)
    requires Distinct(cat)
    ensures Education !in RemoveFirst(cat, Education)
    ensures RemoveFirst(cat, Education) == Filter(cat, NotIn([Education]))
    ensures Education in WithEducation(num)
    ensures WithEducation(num)[..|num|] == num
    ensures |WithEducation(num)| == |num| + (if Education in num then 0 else 1)
  {
    RemoveFirstDistinct(cat, Education);
    RemoveFirstIsFilter(cat, Education);
    assert (num + [Education])[..|num|] == num;
  }

  /** The configuration the stage reads: the declared final feature lists
      and the target (a mapping whose keys are the target names). */
  datatype PreprocessingConfig = PreprocessingConfig(
    catFeatures: seq<string>, numFeatures: seq<string>, targetVariable: seq<string>)

  /** Selecting columns that include `education` keeps that column as it is. */
  lemma ProjectKeepsEducation(t: Table, cols: seq<string>)
    requires WellFormed(t)
    requires Distinct(cols) && forall c :: c in cols ==> c in t.columns
    requires Education in cols
    ensures forall i :: 0 <= i < |t.rows| ==> Education in t.rows[i]
    ensures EducationCells(Project(t, cols).rows) == EducationCells(t.rows)
  {
  }

  /** `df_selected_features`: the retained features, in the order
      categorical then numerical, with the education levels relabelled. */
  function SelectAndEncode(s: NumStage): (r: Result<Table>)
    requires NumFits(s)
    ensures r.Err? ==> Education !in s.retainedCat + s.retainedNum || r.failure.NotAnInteger?
    ensures r.Ok? <==>
      Education in s.retainedCat + s.retainedNum &&
      forall i :: 0 <= i < |s.table.rows| ==> ApplyEducationMap(s.table.rows[i][Education]).Ok?
    ensures Education !in s.retainedCat + s.retainedNum ==> r == Err(MissingColumn(Education))
    ensures r.Err? && Education in s.retainedCat + s.retainedNum ==>
      r == Err(EncodeEducation(EducationCells(s.table.rows)).failure)
    ensures r.Ok? ==> WellFormed(r.value) && r.value.columns == s.retainedCat + s.retainedNum
    ensures r.Ok? ==> |r.value.rows| == |s.table.rows|
    ensures r.Ok? ==> forall i :: 0 <= i < |s.table.rows| ==>
      r.value.rows[i][Education] == Int(ApplyEducationMap(s.table.rows[i][Education]).value)
    ensures r.Ok? ==> forall i, c :: 0 <= i < |s.table.rows| && c in r.value.columns && c != Education ==>
      r.value.rows[i][c] == s.table.rows[i][c]
  {
    var selected := s.retainedCat + s.retainedNum;
    DistinctConcat(s.retainedCat, s.retainedNum);
    var df := Project(s.table, selected);
    if Education !in selected then Err(MissingColumn(Education))
    else
      var mapped := MapEducation(df.rows);
      if mapped.Err? then
        ProjectKeepsEducation(s.table, selected);
        Err(mapped.failure)
      else
        assert forall i :: 0 <= i < |df.rows| ==> df.rows[i].Keys == mapped.value[i].Keys;
        Ok(Table(selected, mapped.value))
  }

  /** The relabelled selection, once `education` has moved to the numerical
      features and both lists match the declared ones as multisets (the
      source compares them sorted). */
  function Assemble(s: NumStage, cfg: PreprocessingConfig): (r: Result<Table>)
    requires NumFits(s)
    ensures SelectAndEncode(s).Err? ==> r == Err(SelectAndEncode(s).failure)
    ensures SelectAndEncode(s).Ok? ==>
      (multiset(cfg.catFeatures) != multiset(RemoveFirst(s.retainedCat, Education)) ==> r == Err(CatSchemaMismatch))
    ensures (SelectAndEncode(s).Ok? && multiset(cfg.catFeatures) == multiset(RemoveFirst(s.retainedCat, Education)) &&
      multiset(cfg.numFeatures) != multiset(WithEducation(s.retainedNum))) ==> r == Err(NumSchemaMismatch)
    ensures r.Ok? <==> (SelectAndEncode(s).Ok? &&
      multiset(cfg.catFeatures) == multiset(RemoveFirst(s.retainedCat, Education)) &&
      multiset(cfg.numFeatures) == multiset(WithEducation(s.retainedNum)))
    ensures r.Ok? ==> r.value == SelectAndEncode(s).value
  {
    var selected := SelectAndEncode(s);
    if selected.Err? then Err(selected.failure)
    else
      var cat := RemoveFirst(s.retainedCat, Education);
      var num := WithEducation(s.retainedNum);
      SortedEqualIffSameMultiset(cfg.catFeatures, cat);
      SortedEqualIffSameMultiset(cfg.numFeatures, num);
      if Sort(cfg.catFeatures) != Sort(cat) then Err(CatSchemaMismatch)
      else if Sort(cfg.numFeatures) != Sort(num) then Err(NumSchemaMismatch)
      else selected
  }

  /** `get_preprocessed_data` on the cleaned, merged table. */
  function PreprocessedData(t: Table, cfg: PreprocessingConfig, oracles: Oracles): (r: Result<Table>)
    requires WellFormed(t)
    ensures NumSelection(t, cfg.targetVariable, oracles).Err? ==>
      r == Err(NumSelection(t, cfg.targetVariable, oracles).failure)
    ensures NumSelection(t, cfg.targetVariable, oracles).Ok? ==>
      r == Assemble(NumSelection(t, cfg.targetVariable, oracles).value, cfg)
  {
    var num := NumSelection(t, cfg.targetVariable, oracles);
    if num.Err? then Err(num.failure) else Assemble(num.value, cfg)
  }

  /** `get_preprocessed_data` as the source runs it, with the feature lists
      updated in place. */
  method GetPreprocessedData(t: Table, cfg: PreprocessingConfig, oracles: Oracles) returns (r: Result<Table>)
    requires WellFormed(t)
    ensures r == PreprocessedData(t, cfg, oracles)
  {
    var num := PreprocessNumFeatures(t, cfg.targetVariable, oracles);
    if num.Err? {
      return Err(num.failure);
    }
    var retainedCat, retainedNum := num.value.retainedCat, num.value.retainedNum;
    var dfSelectedFeatures := SelectAndEncode(num.value);
    if dfSelectedFeatures.Err? {
      return Err(dfSelectedFeatures.failure);
    }
    EducationMoved(retainedCat, retainedNum);
    if Education in retainedCat {
      retainedCat := RemoveFirst(retainedCat, Education);
    }
    assert Education !in retainedCat;
    retainedNum := if Education in retainedNum then retainedNum else retainedNum + [Education];
    assert Education in retainedNum;
    if Sort(cfg.catFeatures) != Sort(retainedCat) {
      return Err(CatSchemaMismatch);
    }
    if Sort(cfg.numFeatures) != Sort(retainedNum) {
      return Err(NumSchemaMismatch);
    }
    return dfSelectedFeatures;
  }
}
