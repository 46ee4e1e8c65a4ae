/** Schema validation of the two raw sources (DataValidation.validate_schema):
    each source's lower-cased column names, sorted, must equal its schema's
    keys, sorted. A mismatch is recorded, logged and written to the source's
    status marker; it never stops the run. */
module DataValidation {
  import opened Sorting

  predicate IsUpper(c: char)
  {
    'A' <= c <= 'Z'
  }

  /** `str.lower()` on the ASCII letters. */
  function LowerChar(c: char): (r: char)
    ensures !IsUpper(r)
    ensures IsUpper(c) ==> r as int == c as int + 32
    ensures !IsUpper(c) ==> r == c
  {
    if IsUpper(c) then (c as int + 32) as char else c
  }

  /** `str.lower()`: no upper-case letter remains, and a name that had none
      comes back as it was. */
  function Lower(s: string): (r: string)
    ensures |r| == |s|
    ensures forall i :: 0 <= i < |s| ==> r[i] == LowerChar(s[i])
    ensures forall i :: 0 <= i < |r| ==> !IsUpper(r[i])
    ensures (forall i :: 0 <= i < |s| ==> !IsUpper(s[i])) ==> r == s
  {
    seq(|s|, i requires 0 <= i < |s| => LowerChar(s[i]))
  }

  /** `[col.lower() for col in df.columns]`. */
  function LowerAll(columns: seq<string>): (r: seq<string>)
    ensures |r| == |columns|
    ensures forall i :: 0 <= i < |columns| ==> r[i] == Lower(columns[i])
    ensures forall i :: 0 <= i < |r| ==> Lower(r[i]) == r[i]
    ensures (forall i :: 0 <= i < |columns| ==> Lower(columns[i]) == columns[i]) ==> r == columns
  {
    seq(|columns|, i requires 0 <= i < |columns| => Lower(columns[i]))
  }

  function AsSet(s: seq<string>): set<string>
  {
    set c | c in s
  }

  lemma SortKeepsSet(s: seq<string>)
    ensures AsSet(Sort(s)) == AsSet(s)
  {
    assert forall c :: c in Sort(s) <==> c in multiset(Sort(s));
    assert forall c :: c in s <==> c in multiset(s);
  }

  /** What the validator logs for one source. */
  datatype Report =
    | Matches
    | Extra(columns: set<string>)     // columns present but not in the schema
    | Missing(columns: set<string>)   // schema keys absent from the columns

  datatype SourceCheck = SourceCheck(status: bool, report: Report)

  /** One source: compare the sorted lower-cased columns with the sorted schema
      keys; on a mismatch log the extra columns, or, if there are none, the
      missing ones. */
  function ValidateSource(dataColumns: seq<string>, schemaKeys: seq<string>): (r: SourceCheck)
    ensures r.status <==> multiset(LowerAll(dataColumns)) == multiset(schemaKeys)
    ensures r.status <==> r.report == Matches
    ensures r.report.Extra? ==>
      r.report.columns == AsSet(LowerAll(dataColumns)) - AsSet(schemaKeys) && r.report.columns != {}
    ensures r.report.Missing? ==>
      AsSet(LowerAll(dataColumns)) <= AsSet(schemaKeys) &&
      r.report.columns == AsSet(schemaKeys) - AsSet(LowerAll(dataColumns))
  {
    var lowered := LowerAll(dataColumns);
    var columns := Sort(lowered);
    var schema := Sort(schemaKeys);
    SortedEqualIffSameMultiset(lowered, schemaKeys);
    if columns != schema then
      SortKeepsSet(lowered);
      SortKeepsSet(schemaKeys);
      var extra := AsSet(columns) - AsSet(schema);
      var missing := AsSet(schema) - AsSet(columns);
      assert AsSet(columns) == AsSet(lowered) && AsSet(schema) == AsSet(schemaKeys);
      assert extra == AsSet(lowered) - AsSet(schemaKeys);
      assert extra == {} ==> AsSet(lowered) <= AsSet(schemaKeys) by {
        if extra == {} {
          forall x | x in AsSet(lowered) ensures x in AsSet(schemaKeys) {
            assert x !in extra;
          }
        }
      }
      SourceCheck(false, if extra != {} then Extra(extra) else Missing(missing))
    else
      SourceCheck(true, Matches)
  }

  const StatusPrefix := "Validation status: "

  /** The text written to a source's status file. */
  function StatusMarker(status: bool): (m: string)
    ensures |m| > |StatusPrefix| && m[..|StatusPrefix|] == StatusPrefix
    ensures m[|StatusPrefix|..] == (if status then "True" else "False")
  {
    StatusPrefix + (if status then "True" else "False")
  }

  /** The marker text determines the status it records. */
  lemma StatusMarkerInjective(a: bool, b: bool)
    requires StatusMarker(a) == StatusMarker(b)
    ensures a == b
  {
    assert StatusMarker(a)[|StatusPrefix|..] == StatusMarker(b)[|StatusPrefix|..];
  }

  datatype SchemaValidation = SchemaValidation(
    internal: SourceCheck, external: SourceCheck,
    internalMarker: string, externalMarker: string)
  {
    /** What `validate_schema` returns. */
    function Statuses(): (bool, bool)
    {
      (internal.status, external.status)
    }
  }

  /** Both sources, each against its own schema; the file contents are
      the columns read from the two spreadsheets. */
  function ValidateSchema(
    internalColumns: seq<string>, internalSchemaKeys: seq<string>,
    externalColumns: seq<string>, externalSchemaKeys: seq<string>): (r: SchemaValidation)
    ensures r.internal.status <==> multiset(LowerAll(internalColumns)) == multiset(internalSchemaKeys)
    ensures r.external.status <==> multiset(LowerAll(externalColumns)) == multiset(externalSchemaKeys)
    ensures r.internalMarker == StatusPrefix + (if r.internal.status then "True" else "False")
    ensures r.externalMarker == StatusPrefix + (if r.external.status then "True" else "False")
  {
    var internal := ValidateSource(internalColumns, internalSchemaKeys);
    var external := ValidateSource(externalColumns, externalSchemaKeys);
    SchemaValidation(internal, external, StatusMarker(internal.status), StatusMarker(external.status))
  }

  /** A mismatch of one source never changes the other's status. */
  lemma StatusesIndependent(
    ic: seq<string>, isk: seq<string>, ec: seq<string>, esk: seq<string>,
    ic': seq<string>, isk': seq<string>, ec': seq<string>, esk': seq<string>)
    ensures ValidateSchema(ic, isk, ec, esk).internal == ValidateSchema(ic, isk, ec', esk').internal
    ensures ValidateSchema(ic, isk, ec, esk).external == ValidateSchema(ic', isk', ec, esk).external
  {
  }

  /** Only the data's names are lower-cased: a schema key with an upper-case
      letter can never be matched. */
  lemma {:induction false} UpperCaseKeyNeverMatches(dataColumns: seq<string>, schemaKeys: seq<string>, k: nat, i: nat)
    requires k < |schemaKeys| && i < |schemaKeys[k]| && IsUpper(schemaKeys[k][i])
    ensures !ValidateSource(dataColumns, schemaKeys).status
  {
    var lowered := LowerAll(dataColumns);
    assert schemaKeys[k] !in lowered by {
      forall j | 0 <= j < |lowered| ensures lowered[j] != schemaKeys[k] {
        if |lowered[j]| == |schemaKeys[k]| {
          assert lowered[j][i] == LowerChar(dataColumns[j][i]);
        }
      }
    }
    assert schemaKeys[k] in multiset(schemaKeys);
  }

  /** If the names differ only in how often they occur, the status is False
      and the logged set of missing columns is empty. */
  lemma OnlyDuplicatesDiffer(dataColumns: seq<string>, schemaKeys: seq<string>)
    requires AsSet(LowerAll(dataColumns)) == AsSet(schemaKeys)
    requires multiset(LowerAll(dataColumns)) != multiset(schemaKeys)
    ensures ValidateSource(dataColumns, schemaKeys) == SourceCheck(false, Missing({}))
  {
  }
}
