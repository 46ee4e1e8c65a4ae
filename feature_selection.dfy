/** Feature selection on the cleaned, merged table
    (DataPreprocessing._preprocess_cat_features and _preprocess_num_features).
    The columns are split into the target, the categorical features and the
    numerical features; a chi-square test against the target thins the
    categorical features, a variance-inflation pass and then an ANOVA test
    against the target thin the numerical ones. The statistical routines
    themselves are parameters: only the thresholds and the list bookkeeping
    around them are modelled. */
module FeatureSelection {
  import opened Seqs
  import opened Frames

  const ProspectId := "prospectid"

  /** Both tests against the target keep a feature at the 5% level. */
  const SignificanceLevel: real := 0.05

  /** A numerical feature whose variance inflation factor exceeds this is
      dropped. */
  const VifLimit: real := 6.0

  /** The four credit-risk classes of the target. */
  const P1: Value := Str("P1")
  const P2: Value := Str("P2")
  const P3: Value := Str("P3")
  const P4: Value := Str("P4")
  const ClassLabels: seq<Value> := [P1, P2, P3, P4]

  /** The statistical routines: the p-value of the chi-square test of
      independence of two columns, the variance inflation factor of the
      column at an index of a table, and the p-value of the one-way ANOVA of
      groups of values. */
  datatype Oracles = Oracles(
    chiSquarePValue: (seq<Value>, seq<Value>) -> Stat,
    vif: (Table, nat) -> Stat,
    anovaPValue: seq<seq<Value>> -> Stat)

  // ---------------------------------------------------------------------
  // Partition of the columns

  datatype Partition = Partition(cat: seq<string>, num: seq<string>)

  function IsObjectColumn(t: Table): string -> bool
  {
    c => ObjectTyped(t, c)
  }

  /** The column lists of the categorical stage: the columns other than the
      target, those of dtype 'O' as categorical features, and the rest, except
      `prospectid`, as numerical features, each in column order. */
  function PartitionFeatures(t: Table, dependent: seq<string>): (p: Partition)
    requires WellFormed(t)
    ensures forall c :: c in p.cat <==> c in t.columns && c !in dependent && ObjectTyped(t, c)
    ensures forall c :: c in p.num <==> c in t.columns && c !in dependent && !ObjectTyped(t, c) && c != ProspectId
    ensures IsSubsequence(p.cat, t.columns) && IsSubsequence(p.num, t.columns)
    ensures Distinct(p.cat) && Distinct(p.num)
  {
    var independent := Filter(t.columns, NotIn(dependent));
    var cat := Filter(independent, IsObjectColumn(t));
    var num := Filter(independent, NotIn(cat + [ProspectId]));
    FilterMembers(t.columns, NotIn(dependent));
    FilterMembers(independent, IsObjectColumn(t));
    FilterMembers(independent, NotIn(cat + [ProspectId]));
    FilterDistinct(t.columns, NotIn(dependent));
    FilterDistinct(independent, IsObjectColumn(t));
    FilterDistinct(independent, NotIn(cat + [ProspectId]));
    var isCat := c => c !in dependent && ObjectTyped(t, c);
    var isNum := c => c !in dependent && c !in cat + [ProspectId];
    FilterCompose(t.columns, NotIn(dependent), IsObjectColumn(t), isCat);
    FilterCompose(t.columns, NotIn(dependent), NotIn(cat + [ProspectId]), isNum);
    FilterIsSubsequence(t.columns, isCat);
    FilterIsSubsequence(t.columns, isNum);
    Partition(cat, num)
  }

  /** The target is neither a categorical nor a numerical feature, and no
      column is both. */
  lemma PartitionDisjoint(t: Table, dependent: seq<string>, c: string)
    requires WellFormed(t)
    ensures c in dependent ==> c !in PartitionFeatures(t, dependent).cat && c !in PartitionFeatures(t, dependent).num
    ensures !(c in PartitionFeatures(t, dependent).cat && c in PartitionFeatures(t, dependent).num)
  {
  }

  /** `dependent_feature[0]` and the column it names: an empty target list
      raises IndexError, a target the table lacks raises KeyError. */
  function TargetColumn(t: Table, dependent: seq<string>): (r: Result<string>)
    ensures r.Ok? <==> dependent != [] && dependent[0] in t.columns
    ensures r.Ok? ==> r.value == dependent[0]
    ensures dependent == [] ==> r == Err(NoTargetVariable)
    ensures dependent != [] && dependent[0] !in t.columns ==> r == Err(MissingColumn(dependent[0]))
  {
    if dependent == [] then Err(NoTargetVariable)
    else if dependent[0] !in t.columns then Err(MissingColumn(dependent[0]))
    else Ok(dependent[0])
  }

  // ---------------------------------------------------------------------
  // Chi-square test of the categorical features

  /** `pval < 0.05` for the feature against the target; NaN fails it. */
  function ChiSquareKeeps(t: Table, target: string, chi: (seq<Value>, seq<Value>) -> Stat): string -> bool
  {
    f => chi(Column(t, f), Column(t, target)).Below(SignificanceLevel)
  }

  /** The chi-square loop: `keep_these` and `drop_these`. */
  method ChiSquareSplit(t: Table, cat: seq<string>, target: string, chi: (seq<Value>, seq<Value>) -> Stat)
    returns (keep: seq<string>, drop: seq<string>)
    ensures keep == Filter(cat, ChiSquareKeeps(t, target, chi))
    ensures drop == Filter(cat, Not(ChiSquareKeeps(t, target, chi)))
    ensures Interleaves(cat, keep, drop)
  {
    keep, drop := [], [];
    for i := 0 to |cat|
      invariant keep == Filter(cat[..i], ChiSquareKeeps(t, target, chi))
      invariant drop == Filter(cat[..i], Not(ChiSquareKeeps(t, target, chi)))
    {
      var feature := cat[i];
      FilterAppend(cat[..i], feature, ChiSquareKeeps(t, target, chi));
      FilterAppend(cat[..i], feature, Not(ChiSquareKeeps(t, target, chi)));
      assert cat[..i + 1] == cat[..i] + [feature];
      var pval := chi(Column(t, feature), Column(t, target));
      if pval.Below(SignificanceLevel) {
        keep := keep + [feature];
      } else {
        drop := drop + [feature];
      }
    }
    assert cat[..|cat|] == cat;
    FilterSplits(cat, ChiSquareKeeps(t, target, chi));
  }

  /** What the categorical stage hands on: the table after the drop, the
      kept categorical features, the numerical features and the target list. */
  datatype CatStage = CatStage(table: Table, keep: seq<string>, rawNum: seq<string>, dependent: seq<string>)

  /** The categorical stage: refuse missing values, then duplicate rows;
      partition the columns; test each categorical feature against the
      target and drop the columns that fail. */
  function CatSelection(t: Table, dependent: seq<string>, chi: (seq<Value>, seq<Value>) -> Stat): (r: Result<CatStage>)
    requires WellFormed(t)
    ensures !NoNulls(t) ==> r == Err(MissingValuesInCleanedRaw)
    ensures NoNulls(t) && !NoDuplicateRows(t) ==> r == Err(DuplicatesInCleanedRaw)
    ensures (NoNulls(t) && NoDuplicateRows(t) && PartitionFeatures(t, dependent).cat != [] &&
      TargetColumn(t, dependent).Err?) ==> r == Err(TargetColumn(t, dependent).failure)
    ensures r.Ok? <==> (NoNulls(t) && NoDuplicateRows(t) &&
      (PartitionFeatures(t, dependent).cat != [] ==> dependent != [] && dependent[0] in t.columns))
    ensures r.Ok? ==>
      WellFormed(r.value.table) && r.value.dependent == dependent &&
      r.value.rawNum == PartitionFeatures(t, dependent).num &&
      IsSubsequence(r.value.keep, PartitionFeatures(t, dependent).cat) && Distinct(r.value.keep) &&
      IsSubsequence(r.value.table.columns, t.columns) &&
      |r.value.table.rows| == |t.rows|
    ensures r.Ok? ==> forall c :: c in r.value.table.columns <==>
      c in t.columns && (c in r.value.keep || c !in PartitionFeatures(t, dependent).cat)
    ensures r.Ok? && PartitionFeatures(t, dependent).cat != [] ==> forall c :: c in r.value.keep <==>
      c in PartitionFeatures(t, dependent).cat && ChiSquareKeeps(t, dependent[0], chi)(c)
    ensures r.Ok? ==> forall i, c :: 0 <= i < |t.rows| && c in r.value.table.columns ==>
      r.value.table.rows[i][c] == t.rows[i][c]
  {
    if !NoNulls(t) then Err(MissingValuesInCleanedRaw)
    else if !NoDuplicateRows(t) then Err(DuplicatesInCleanedRaw)
    else
      var p := PartitionFeatures(t, dependent);
      IsSubsequenceReflexive(t.columns);
      if p.cat == [] then
        Ok(CatStage(t, [], p.num, dependent))
      else if TargetColumn(t, dependent).Err? then
        Err(TargetColumn(t, dependent).failure)
      else
        var target := dependent[0];
        var keep := Filter(p.cat, ChiSquareKeeps(t, target, chi));
        var drop := Filter(p.cat, Not(ChiSquareKeeps(t, target, chi)));
        FilterMembers(p.cat, ChiSquareKeeps(t, target, chi));
        FilterMembers(p.cat, Not(ChiSquareKeeps(t, target, chi)));
        FilterIsSubsequence(p.cat, ChiSquareKeeps(t, target, chi));
        FilterDistinct(p.cat, ChiSquareKeeps(t, target, chi));
        Ok(CatStage(if drop != [] then DropColumns(t, drop) else t, keep, p.num, dependent))
  }

  /** `_preprocess_cat_features`. */
  method PreprocessCatFeatures(t: Table, dependent: seq<string>, chi: (seq<Value>, seq<Value>) -> Stat)
    returns (r: Result<CatStage>)
    requires WellFormed(t)
    ensures r == CatSelection(t, dependent, chi)
  {
    if !NoNulls(t) {
      return Err(MissingValuesInCleanedRaw);
    }
    if !NoDuplicateRows(t) {
      return Err(DuplicatesInCleanedRaw);
    }
    var p := PartitionFeatures(t, dependent);
    var keep, drop := [], [];
    if p.cat != [] {
      // the first iteration of the loop looks up the target
      if dependent == [] {
        return Err(NoTargetVariable);
      }
      if dependent[0] !in t.columns {
        return Err(MissingColumn(dependent[0]));
      }
      keep, drop := ChiSquareSplit(t, p.cat, dependent[0], chi);
    }
    var table := t;
    if drop != [] {
      table := DropColumns(t, drop);
    }
    return Ok(CatStage(table, keep, p.num, dependent));
  }

  // ---------------------------------------------------------------------
  // Variance inflation pass over the numerical features

  /** The loop variables: the working table `vif_data`, `column_index`,
      `columns_to_be_kept` and `columns_to_be_dropped`. */
  datatype VifState = VifState(work: Table, columnIndex: nat, kept: seq<string>, dropped: seq<string>)

  /** One iteration on the feature `f`: score the column at `column_index`;
      keep the feature and move the index on, or drop the feature and its
      column from the working table. */
  function VifStep(s: VifState, f: string, vif: (Table, nat) -> Stat): (r: VifState)
    requires WellFormed(s.work)
    ensures WellFormed(r.work) && |r.work.rows| == |s.work.rows|
    ensures |r.kept| + |r.dropped| == |s.kept| + |s.dropped| + 1
    ensures r.columnIndex - |r.kept| == s.columnIndex - |s.kept|
    ensures vif(s.work, s.columnIndex).AtMost(VifLimit) ==>
      r.kept == s.kept + [f] && r.dropped == s.dropped && r.work == s.work
    ensures !vif(s.work, s.columnIndex).AtMost(VifLimit) ==>
      r.kept == s.kept && r.dropped == s.dropped + [f] &&
      forall c :: c in r.work.columns <==> c in s.work.columns && c != f
  {
    if vif(s.work, s.columnIndex).AtMost(VifLimit) then
      VifState(s.work, s.columnIndex + 1, s.kept + [f], s.dropped)
    else
      VifState(DropColumns(s.work, [f]), s.columnIndex, s.kept, s.dropped + [f])
  }

  predicate VifInput(t: Table, features: seq<string>)
  {
    WellFormed(t) && Distinct(features) && forall c :: c in features ==> c in t.columns
  }

  /** The loop variables after the first `i` iterations, starting from
      `df[features]`. */
  function VifAfter(t: Table, features: seq<string>, vif: (Table, nat) -> Stat, i: nat): (r: VifState)
    requires VifInput(t, features) && i <= |features|
    ensures WellFormed(r.work) && |r.work.rows| == |t.rows|
    ensures |r.kept| + |r.dropped| == i
    ensures r.columnIndex == |r.kept|
  {
    if i == 0 then VifState(Project(t, features), 0, [], [])
    else VifStep(VifAfter(t, features, vif, i - 1), features[i - 1], vif)
  }

  /** The loop invariant: the working table is the original restricted to the
      kept features followed by the features not yet visited, the index
      counts the kept features, and the visited features are split, in order,
      between kept and dropped. */
  predicate VifInvariant(t: Table, features: seq<string>, i: nat, s: VifState)
    requires WellFormed(t) && i <= |features|
  {
    var cols := s.kept + features[i..];
    Distinct(cols) && (forall c :: c in cols ==> c in t.columns) &&
    s.work == Project(t, cols) &&
    s.columnIndex == |s.kept| &&
    Interleaves(features[..i], s.kept, s.dropped)
  }

  /** Dropping the first unvisited feature from the working table leaves the
      original restricted to the kept features and the rest. */
  lemma VifDropStep(t: Table, kept: seq<string>, f: string, rest: seq<string>)
    requires WellFormed(t)
    requires Distinct(kept + [f] + rest) && forall c :: c in kept + [f] + rest ==> c in t.columns
    ensures Distinct(kept + rest) && forall c :: c in kept + rest ==> c in t.columns
    ensures DropColumns(Project(t, kept + [f] + rest), [f]) == Project(t, kept + rest)
  {
    var cols := kept + [f] + rest;
    assert f !in kept && f !in rest by {
      forall k | 0 <= k < |kept| ensures kept[k] != f {
        assert cols[k] == kept[k] && cols[|kept|] == f;
      }
      forall k | 0 <= k < |rest| ensures rest[k] != f {
        assert cols[|kept| + 1 + k] == rest[k] && cols[|kept|] == f;
      }
    }
    FilterConcat(kept + [f], rest, NotIn([f]));
    FilterConcat(kept, [f], NotIn([f]));
    FilterKeepsAll(kept, NotIn([f]));
    FilterKeepsAll(rest, NotIn([f]));
    assert Filter([f], NotIn([f])) == [];
    assert Filter(cols, NotIn([f])) == kept + rest;
    FilterDistinct(cols, NotIn([f]));
    var p := Project(t, cols);
    ProjectProject(t, cols, kept + rest);
  }

  /** One iteration keeps the loop invariant. */
  lemma VifInvariantStep(t: Table, features: seq<string>, vif: (Table, nat) -> Stat, i: nat, s: VifState)
    requires VifInput(t, features) && 0 < i <= |features|
    requires VifInvariant(t, features, i - 1, s)
    ensures VifInvariant(t, features, i, VifStep(s, features[i - 1], vif))
  {
    var f := features[i - 1];
    assert features[i - 1..] == [f] + features[i..];
    assert features[..i] == features[..i - 1] + [f];
    InterleavesSnoc(features[..i - 1], s.kept, s.dropped, f);
    if vif(s.work, s.columnIndex).AtMost(VifLimit) {
      assert VifStep(s, f, vif) == VifState(s.work, s.columnIndex + 1, s.kept + [f], s.dropped);
      assert (s.kept + [f]) + features[i..] == s.kept + features[i - 1..];
    } else {
      assert VifStep(s, f, vif) == VifState(DropColumns(s.work, [f]), s.columnIndex, s.kept, s.dropped + [f]);
      assert s.kept + features[i - 1..] == s.kept + [f] + features[i..];
      VifDropStep(t, s.kept, f, features[i..]);
    }
  }

  lemma {:induction false} VifInvariantHolds(t: Table, features: seq<string>, vif: (Table, nat) -> Stat, i: nat)
    requires VifInput(t, features) && i <= |features|
    ensures VifInvariant(t, features, i, VifAfter(t, features, vif, i))
  {
    if i == 0 {
      assert [] + features[0..] == features;
    } else {
      VifInvariantHolds(t, features, vif, i - 1);
      VifInvariantStep(t, features, vif, i, VifAfter(t, features, vif, i - 1));
    }
  }

  /** The column scored in iteration `i` is always the `i`-th feature. */
  lemma VifScoresItsFeature(t: Table, features: seq<string>, vif: (Table, nat) -> Stat, i: nat)
    requires VifInput(t, features) && i < |features|
    ensures VifAfter(t, features, vif, i).columnIndex < |VifAfter(t, features, vif, i).work.columns|
    ensures VifAfter(t, features, vif, i).work.columns[VifAfter(t, features, vif, i).columnIndex] == features[i]
  {
    VifInvariantHolds(t, features, vif, i);
    var s := VifAfter(t, features, vif, i);
    assert (s.kept + features[i..])[|s.kept|] == features[i];
  }

  /** After the loop the kept and dropped features split the features in
      order, and the working table holds exactly the kept ones. */
  lemma VifFinal(t: Table, features: seq<string>, vif: (Table, nat) -> Stat)
    requires VifInput(t, features)
    ensures Interleaves(features, VifAfter(t, features, vif, |features|).kept, VifAfter(t, features, vif, |features|).dropped)
    ensures Distinct(VifAfter(t, features, vif, |features|).kept)
    ensures forall c :: c in VifAfter(t, features, vif, |features|).kept ==> c in t.columns
    ensures VifAfter(t, features, vif, |features|).work == Project(t, VifAfter(t, features, vif, |features|).kept)
  {
    VifInvariantHolds(t, features, vif, |features|);
    var s := VifAfter(t, features, vif, |features|);
    assert features[..|features|] == features;
    assert s.kept + features[|features|..] == s.kept;
  }

  /** Lists that were prefixes before an iteration are prefixes after it. */
  lemma VifStepGrows(a: VifState, s: VifState, f: string, vif: (Table, nat) -> Stat)
    requires WellFormed(s.work) && a.kept <= s.kept && a.dropped <= s.dropped
    ensures a.kept <= VifStep(s, f, vif).kept && a.dropped <= VifStep(s, f, vif).dropped
  {
    var r := VifStep(s, f, vif);
    assert s.kept <= r.kept && s.dropped <= r.dropped by {
      assert s.kept <= s.kept + [f] && s.dropped <= s.dropped + [f];
    }
    PrefixTransitive(a.kept, s.kept, r.kept);
    PrefixTransitive(a.dropped, s.dropped, r.dropped);
  }

  /** The kept and dropped lists only grow. */
  lemma {:induction false} VifGrows(t: Table, features: seq<string>, vif: (Table, nat) -> Stat, i: nat, j: nat)
    requires VifInput(t, features) && i <= j <= |features|
    ensures VifAfter(t, features, vif, i).kept <= VifAfter(t, features, vif, j).kept
    ensures VifAfter(t, features, vif, i).dropped <= VifAfter(t, features, vif, j).dropped
  {
    if i < j {
      VifGrows(t, features, vif, i, j - 1);
      VifStepGrows(VifAfter(t, features, vif, i), VifAfter(t, features, vif, j - 1), features[j - 1], vif);
    }
  }

  /** A feature is kept exactly when its score, taken in its own iteration,
      is at most 6; NaN counts as above. */
  lemma VifKeptIff(t: Table, features: seq<string>, vif: (Table, nat) -> Stat, i: nat)
    requires VifInput(t, features) && i < |features|
    ensures features[i] in VifAfter(t, features, vif, |features|).kept <==>
      vif(VifAfter(t, features, vif, i).work, VifAfter(t, features, vif, i).columnIndex).AtMost(VifLimit)
  {
    var s := VifAfter(t, features, vif, i);
    var last := VifAfter(t, features, vif, |features|);
    VifGrows(t, features, vif, i + 1, |features|);
    VifFinal(t, features, vif);
    InterleavesDisjoint(features, last.kept, last.dropped);
    var next := VifAfter(t, features, vif, i + 1);
    if vif(s.work, s.columnIndex).AtMost(VifLimit) {
      assert features[i] == next.kept[|next.kept| - 1];
      assert next.kept == last.kept[..|next.kept|];
    } else {
      assert features[i] == next.dropped[|next.dropped| - 1];
      assert next.dropped == last.dropped[..|next.dropped|];
      assert features[i] in last.dropped;
    }
  }

  /** The VIF loop as the source runs it. */
  method VifPrune(t: Table, features: seq<string>, vif: (Table, nat) -> Stat)
    returns (work: Table, kept: seq<string>, dropped: seq<string>)
    requires VifInput(t, features)
    ensures VifState(work, |kept|, kept, dropped) == VifAfter(t, features, vif, |features|)
    ensures Interleaves(features, kept, dropped)
    ensures Distinct(kept) && forall c :: c in kept ==> c in t.columns
    ensures work == Project(t, kept)
  {
    var vifData := Project(t, features);
    var columnIndex := 0;
    kept, dropped := [], [];
    var n := |vifData.columns|;
    for i := 0 to n
      invariant VifState(vifData, columnIndex, kept, dropped) == VifAfter(t, features, vif, i)
    {
      var vifValue := vif(vifData, columnIndex);
      if vifValue.AtMost(VifLimit) {
        kept := kept + [features[i]];
        columnIndex := columnIndex + 1;
      } else {
        dropped := dropped + [features[i]];
        vifData := DropColumns(vifData, [features[i]]);
      }
    }
    work := vifData;
    VifFinal(t, features, vif);
    VifInvariantHolds(t, features, vif, |features|);
  }

  // ---------------------------------------------------------------------
  // ANOVA test of the numerical features

  /** `[value for value, group in zip(a, b) if group == cls]`: the values
      whose row has the target value `cls`, in row order; `zip` stops at the shorter
      list. */
  function Group(values: seq<Value>, labels: seq<Value>, cls: Value): (r: seq<Value>)
    ensures |r| <= |values| && |r| <= |labels|
  {
    if values == [] || labels == [] then []
    else (if labels[0] == cls then [values[0]] else []) + Group(values[1..], labels[1..], cls)
  }

  /** A value is in the group exactly when some row has that value and the
      target value `cls`. */
  lemma {:induction false} GroupMembers(values: seq<Value>, labels: seq<Value>, cls: Value, v: Value)
    ensures v in Group(values, labels, cls) <==>
      exists k :: 0 <= k < |values| && k < |labels| && labels[k] == cls && values[k] == v
  {
    if values != [] && labels != [] {
      GroupMembers(values[1..], labels[1..], cls, v);
      if v in Group(values[1..], labels[1..], cls) {
        var k :| 0 <= k < |values[1..]| && k < |labels[1..]| && labels[1..][k] == cls && values[1..][k] == v;
        assert labels[k + 1] == cls && values[k + 1] == v;
      }
      if exists k :: 0 <= k < |values| && k < |labels| && labels[k] == cls && values[k] == v {
        var k :| 0 <= k < |values| && k < |labels| && labels[k] == cls && values[k] == v;
        if k > 0 {
          assert labels[1..][k - 1] == cls && values[1..][k - 1] == v;
        }
      }
    }
  }

  /** The row has the value `v` and the target value `cls`. */
  function Labelled(cls: Value, v: Value): (Value, Value) -> bool
  {
    (x, target) => target == cls && x == v
  }

  lemma {:induction false} GroupCountFrom(values: seq<Value>, labels: seq<Value>, cls: Value, v: Value, lo: nat)
    requires lo <= |values| && lo <= |labels|
    ensures multiset(Group(values[lo..], labels[lo..], cls))[v] == |ZipPositions(values, labels, Labelled(cls, v), lo)|
    decreases |values| - lo
  {
    if lo == |values| || lo == |labels| {
      assert ZipPositions(values, labels, Labelled(cls, v), lo) == {};
    } else {
      GroupCountFrom(values, labels, cls, v, lo + 1);
      ZipPositionsStep(values, labels, Labelled(cls, v), lo);
      var vs, ls := values[lo..], labels[lo..];
      assert vs[1..] == values[lo + 1..] && ls[1..] == labels[lo + 1..];
      var first := if ls[0] == cls then [vs[0]] else [];
      assert Group(vs, ls, cls) == first + Group(vs[1..], ls[1..], cls);
      assert multiset(first)[v] == if labels[lo] == cls && values[lo] == v then 1 else 0;
    }
  }

  /** A group lists its values in row order, and each value as often as
      rows carry it beside the label `cls`; `f_oneway` sees exactly these. */
  lemma {:induction false} GroupOrderAndCounts(values: seq<Value>, labels: seq<Value>, cls: Value)
    ensures IsSubsequence(Group(values, labels, cls), values)
    ensures forall v :: multiset(Group(values, labels, cls))[v] == |ZipPositions(values, labels, Labelled(cls, v), 0)|
  {
    if values != [] && labels != [] {
      GroupOrderAndCounts(values[1..], labels[1..], cls);
      var rest := Group(values[1..], labels[1..], cls);
      if labels[0] == cls {
        assert Group(values, labels, cls) == [values[0]] + rest;
        assert ([values[0]] + rest)[1..] == rest;
      } else {
        assert Group(values, labels, cls) == rest;
      }
    }
    assert values[0..] == values && labels[0..] == labels;
    forall v ensures multiset(Group(values, labels, cls))[v] == |ZipPositions(values, labels, Labelled(cls, v), 0)| {
      GroupCountFrom(values, labels, cls, v, 0);
    }
  }

  /** `group_p1`, ..., `group_p4`. */
  function Groups(values: seq<Value>, labels: seq<Value>): (r: seq<seq<Value>>)
    ensures |r| == |ClassLabels|
    ensures forall k :: 0 <= k < |r| ==> r[k] == Group(values, labels, ClassLabels[k])
  {
    [Group(values, labels, P1), Group(values, labels, P2), Group(values, labels, P3), Group(values, labels, P4)]
  }

  function GroupSizes(values: seq<Value>, labels: seq<Value>): nat
  {
    |Group(values, labels, P1)| + |Group(values, labels, P2)| +
    |Group(values, labels, P3)| + |Group(values, labels, P4)|
  }

  /** Every paired row lands in at most one group, and the four groups
      together hold every paired row exactly when every label is one of
      P1..P4: rows with any other label fall in no group. */
  lemma {:induction false} GroupsCover(values: seq<Value>, labels: seq<Value>)
    ensures GroupSizes(values, labels) <= |values| && GroupSizes(values, labels) <= |labels|
    ensures |values| <= |labels| ==>
      (GroupSizes(values, labels) == |values| <==> forall k :: 0 <= k < |values| ==> labels[k] in ClassLabels)
  {
    if values != [] && labels != [] {
      GroupsCover(values[1..], labels[1..]);
      assert forall k :: 0 < k < |values| && k < |labels| ==> labels[k] == labels[1..][k - 1];
    }
  }

  /** `p_value <= 0.05` for the feature's values grouped by the target;
      NaN fails it. */
  function AnovaKeeps(t: Table, target: string,
                      anova: seq<seq<Value>> -> Stat): string -> bool
  {
    f => AnovaPValue(t, f, target, anova).AtMost(SignificanceLevel)
  }

  /** The one-way ANOVA of the feature's values in classes P1..P4. */
  function AnovaPValue(t: Table, f: string, target: string,
                       anova: seq<seq<Value>> -> Stat): Stat
  {
    anova(Groups(Column(t, f), Column(t, target)))
  }

  /** The ANOVA loop: `retained_num_features` and `discarded_num_feature`. */
  method AnovaSplit(t: Table, features: seq<string>, target: string,
                    anova: seq<seq<Value>> -> Stat)
    returns (retained: seq<string>, discarded: seq<string>)
    ensures retained == Filter(features, AnovaKeeps(t, target, anova))
    ensures discarded == Filter(features, Not(AnovaKeeps(t, target, anova)))
    ensures Interleaves(features, retained, discarded)
  {
    retained, discarded := [], [];
    for i := 0 to |features|
      invariant retained == Filter(features[..i], AnovaKeeps(t, target, anova))
      invariant discarded == Filter(features[..i], Not(AnovaKeeps(t, target, anova)))
    {
      var feature := features[i];
      FilterAppend(features[..i], feature, AnovaKeeps(t, target, anova));
      FilterAppend(features[..i], feature, Not(AnovaKeeps(t, target, anova)));
      assert features[..i + 1] == features[..i] + [feature];
      var pValue := AnovaPValue(t, feature, target, anova);
      if pValue.AtMost(SignificanceLevel) {
        retained := retained + [feature];
      } else {
        discarded := discarded + [feature];
      }
    }
    assert features[..|features|] == features;
    FilterSplits(features, AnovaKeeps(t, target, anova));
  }

  // ---------------------------------------------------------------------
  // The numerical stage

  /** What the numerical stage hands on: the table and the retained
      categorical and numerical features. */
  datatype NumStage = NumStage(table: Table, retainedCat: seq<string>, retainedNum: seq<string>)

  /** The features the VIF pass keeps, given the categorical stage's output. */
  function VifKept(c: CatStage, vif: (Table, nat) -> Stat): (r: seq<string>)
    requires VifInput(c.table, c.rawNum)
    ensures IsSubsequence(r, c.rawNum) && Distinct(r)
    ensures forall f :: f in r ==> f in c.table.columns
  {
    VifFinal(c.table, c.rawNum, vif);
    var s := VifAfter(c.table, c.rawNum, vif, |c.rawNum|);
    InterleavesSubsequences(c.rawNum, s.kept, s.dropped);
    s.kept
  }

  predicate CatFits(c: CatStage)
  {
    VifInput(c.table, c.rawNum) &&
    Distinct(c.keep) && forall f :: f in c.keep ==> f in c.table.columns && f !in c.rawNum
  }

  /** The categorical stage's lists fit its table: the numerical features
      are distinct columns of it, the kept categorical features too, and the
      two lists share nothing. */
  lemma CatStageFits(t: Table, dependent: seq<string>, chi: (seq<Value>, seq<Value>) -> Stat)
    requires WellFormed(t) && CatSelection(t, dependent, chi).Ok?
    ensures CatFits(CatSelection(t, dependent, chi).value)
  {
    var c := CatSelection(t, dependent, chi).value;
    var p := PartitionFeatures(t, dependent);
    assert forall f :: f in c.keep ==> f in p.cat by {
      forall f | f in c.keep ensures f in p.cat {
        SubsequenceMembers(c.keep, p.cat, f);
      }
    }
  }

  /** The numerical stage's lists fit its table: both are distinct columns
      of it and they share nothing. */
  predicate NumFits(s: NumStage)
  {
    WellFormed(s.table) && Distinct(s.retainedCat) && Distinct(s.retainedNum) &&
    (forall f :: f in s.retainedCat + s.retainedNum ==> f in s.table.columns) &&
    (forall f :: f in s.retainedCat ==> f !in s.retainedNum)
  }

  /** The numerical stage after the categorical one: the VIF pass on
      `df[raw_num_features]`, then the ANOVA test of each kept feature
      against the target, looked up only if some feature was kept. */
  function NumFromCat(c: CatStage, oracles: Oracles): (r: Result<NumStage>)
    requires CatFits(c)
    ensures r.Ok? ==> r.value.table == c.table && r.value.retainedCat == c.keep
    ensures r.Ok? ==> IsSubsequence(r.value.retainedNum, c.rawNum)
    ensures r.Ok? ==> NumFits(r.value)
    ensures r.Err? <==> VifKept(c, oracles.vif) != [] && TargetColumn(c.table, c.dependent).Err?
    ensures r.Err? ==> r.failure == TargetColumn(c.table, c.dependent).failure
    ensures r.Ok? && c.dependent != [] ==> forall f :: f in r.value.retainedNum <==>
      f in VifKept(c, oracles.vif) && AnovaPValue(c.table, f, c.dependent[0], oracles.anovaPValue).AtMost(SignificanceLevel)
    ensures r.Ok? && VifKept(c, oracles.vif) == [] ==> r.value.retainedNum == []
  {
    var kept := VifKept(c, oracles.vif);
    if kept == [] then
      Ok(NumStage(c.table, c.keep, []))
    else if TargetColumn(c.table, c.dependent).Err? then
      Err(TargetColumn(c.table, c.dependent).failure)
    else
      var keeps := AnovaKeeps(c.table, c.dependent[0], oracles.anovaPValue);
      var retained := Filter(kept, keeps);
      FilterIsSubsequence(kept, keeps);
      IsSubsequenceTransitive(retained, kept, c.rawNum);
      FilterDistinct(kept, keeps);
      FilterMembers(kept, keeps);
      assert forall f :: f in retained ==> f in c.rawNum by {
        forall f | f in retained ensures f in c.rawNum {
          SubsequenceMembers(retained, c.rawNum, f);
        }
      }
      Ok(NumStage(c.table, c.keep, retained))
  }

  /** `_preprocess_num_features`: the categorical stage, then the numerical
      one. */
  function NumSelection(t: Table, dependent: seq<string>, oracles: Oracles): (r: Result<NumStage>)
    requires WellFormed(t)
    ensures CatSelection(t, dependent, oracles.chiSquarePValue).Err? ==>
      r == Err(CatSelection(t, dependent, oracles.chiSquarePValue).failure)
    ensures CatSelection(t, dependent, oracles.chiSquarePValue).Ok? ==>
      CatFits(CatSelection(t, dependent, oracles.chiSquarePValue).value)
    ensures CatSelection(t, dependent, oracles.chiSquarePValue).Ok? ==>
      r == NumFromCat(CatSelection(t, dependent, oracles.chiSquarePValue).value, oracles)
    ensures r.Ok? ==> NumFits(r.value)
  {
    var cat := CatSelection(t, dependent, oracles.chiSquarePValue);
    if cat.Err? then Err(cat.failure)
    else
      CatStageFits(t, dependent, oracles.chiSquarePValue);
      NumFromCat(cat.value, oracles)
  }

  /** `_preprocess_num_features` as the source runs it. */
  method PreprocessNumFeatures(t: Table, dependent: seq<string>, oracles: Oracles) returns (r: Result<NumStage>)
    requires WellFormed(t)
    ensures r == NumSelection(t, dependent, oracles)
  {
    var cat := PreprocessCatFeatures(t, dependent, oracles.chiSquarePValue);
    if cat.Err? {
      return Err(cat.failure);
    }
    CatStageFits(t, dependent, oracles.chiSquarePValue);
    var crDf, retainedCat, rawNum := cat.value.table, cat.value.keep, cat.value.rawNum;
    var vifData, kept, dropped := VifPrune(crDf, rawNum, oracles.vif);
    var retained := [];
    if kept != [] {
      // the first iteration of the ANOVA loop looks up the target
      if dependent == [] {
        return Err(NoTargetVariable);
      }
      if dependent[0] !in crDf.columns {
        return Err(MissingColumn(dependent[0]));
      }
      var discarded;
      retained, discarded := AnovaSplit(crDf, kept, dependent[0], oracles.anovaPValue);
    }
    return Ok(NumStage(crDf, retainedCat, retained));
  }
}
