# CategorizeCreditRisk preprocessing, modelled in Dafny

CategorizeCreditRisk sorts loan applicants into four risk classes (P1 to P4).
The model covers two steps that run before training:

- **Schema validation** (`DataValidation.validate_schema`). Each raw file's
  column names are lower-cased and compared, as sorted lists, with the keys of
  its declared schema. The step writes `Validation status: True|False` for
  each source and returns the two statuses.
- **Preprocessing** (`DataPreprocessing`). The steps are:
  - Drop the rows where the internal data's `age_oldest_tl` is -99999.
  - In the external data, drop every column with more than 10000 cells equal
    to -99999. Then drop every row that still has -99999 in any column.
  - Inner-join the two tables on all the columns they share.
  - Check the merged table for missing cells and duplicate rows.
  - Keep the categorical features whose chi-square p-value against the target
    is below 0.05.
  - Prune the numerical features one by one by variance inflation factor
    (VIF ≤ 6 is kept). Keep the survivors whose one-way ANOVA p-value across
    the classes P1..P4 is at most 0.05.
  - Select the retained columns and relabel `education` as a level 1..4.
  - Move `education` from the categorical list to the numerical list.
  - Check both lists against the declared feature schema.

The files:

| file | module | what it holds |
|---|---|---|
| `seqs.dfy` | `Seqs` | distinctness, subsequences, interleavings, the list filter that models every list comprehension, `list.remove` |
| `sorting.dfy` | `Sorting` | `sorted` on strings (code-point order), proved to compare lists as multisets |
| `frames.dfy` | `Frames` | the table model (ordered columns; rows keyed by column), row selection, projection, column dropping, NaN-aware statistics, the failures |
| `missing_values.dfy` | `MissingValues` | `_impute_missing_values` and `_merge_dataframes` |
| `data_validation.dfy` | `DataValidation` | `validate_schema` |
| `feature_selection.dfy` | `FeatureSelection` | `_preprocess_cat_features` and `_preprocess_num_features` |
| `assembly.dfy` | `Assembly` | `get_preprocessed_data` with `__apply_education_map` and Python's `int()` on strings |

How the model represents things:

- **Each preprocessing stage is a function and a method.** This covers the
  imputation, the categorical and numerical selections and the final assembly.
  The function states the result in terms of the stage's input. The method
  follows the source's loops and in-place list updates. Its contract says it
  returns exactly what the function describes. Schema validation has no loop
  that updates state, so it is functions only.
- **Statistics are oracles.** The chi-square p-value, the VIF and the ANOVA
  p-value are passed in as oracle functions, bundled in
  `FeatureSelection.Oracles`. They may return NaN, and then every comparison
  is false, as in Python.
- **Exceptions become failures.** An exception or failed assertion is an
  `Err` that carries a `Frames.Failure`.

Two consequences of the code that are easy to miss:

- **Leftover -99999 values.** The internal cleanup checks only
  `age_oldest_tl` (data_preprocessing.py:36). Any other internal-only column
  therefore keeps its -99999 cells, and they reach the merged table.
  `MissingValues.MergedTableMayHoldSentinel` gives a concrete example.
- **Schema comparison.** The final check compares sorted lists
  (data_preprocessing.py:255-258). That is multiset equality, not set
  equality (`Sorting.SortedEqualIffSameMultiset`).

## Model

| member | source | states |
|---|---|---|
| Sorting.Sort | src/CategorizeCreditRisk/components/data_validation.py:22-23 | `sorted`: the result is ordered and a permutation of its input |
| Sorting.SortedEqualIffSameMultiset | src/CategorizeCreditRisk/components/data_preprocessing.py:255-258 | two lists have equal `sorted` forms exactly when they hold the same names with the same multiplicities |
| Sorting.SortedUnique | src/CategorizeCreditRisk/components/data_validation.py:30 | two ordered lists with the same elements are equal, so comparing sorted lists compares contents |
| DataValidation.Lower | src/CategorizeCreditRisk/components/data_validation.py:21 | `col.lower()` keeps the length, lower-cases each character, leaves no upper-case letter, and returns a name without upper-case letters unchanged |
| DataValidation.LowerAll | src/CategorizeCreditRisk/components/data_validation.py:21 | the comprehension lower-cases every column name in place order; each result is already lower case, and all-lower-case names come back unchanged |
| DataValidation.LowerChar | src/CategorizeCreditRisk/components/data_validation.py:21 | a lower-cased character is never upper case; an upper-case letter becomes its lower-case partner and every other character is unchanged |
| DataValidation.ValidateSource | src/CategorizeCreditRisk/components/data_validation.py:21-36 | the status is true iff the lower-cased columns and the schema keys are the same multiset; the report names the extra columns when there are any, otherwise the missing ones |
| DataValidation.StatusMarker | src/CategorizeCreditRisk/components/data_validation.py:38-39 | the status file holds the fixed prefix followed by `True` or `False` |
| DataValidation.StatusMarkerInjective | src/CategorizeCreditRisk/components/data_validation.py:38-39 | the status file determines the status |
| DataValidation.ValidateSchema | src/CategorizeCreditRisk/components/data_validation.py:13-57 | each returned status is the multiset comparison of its source, and each marker records that status |
| DataValidation.StatusesIndependent | src/CategorizeCreditRisk/components/data_validation.py:30-53 | the internal status depends only on the internal inputs and the external status only on the external ones |
| DataValidation.UpperCaseKeyNeverMatches | src/CategorizeCreditRisk/components/data_validation.py:21-30 | a schema key with an upper-case letter can never be matched, because the data columns are lower-cased first |
| DataValidation.OnlyDuplicatesDiffer | src/CategorizeCreditRisk/components/data_validation.py:30-36 | when the two name sets agree but the lists differ (a repeated name), the status is false and the report is an empty "missing" set |
| Frames.NoNulls | src/CategorizeCreditRisk/components/data_preprocessing.py:113 | the null check passes iff no row holds a missing value |
| Frames.NoDuplicateRows | src/CategorizeCreditRisk/components/data_preprocessing.py:114 | `duplicated()` flags nothing iff no row equals an earlier one, iff every row occurs at most once |
| Frames.ObjectTyped | src/CategorizeCreditRisk/components/data_preprocessing.py:119 | a column is of dtype object iff the table has no rows or some row holds a string there; a column of a non-empty table with no string is not |
| Frames.SelectRows | src/CategorizeCreditRisk/components/data_preprocessing.py:36 | row selection keeps the columns and exactly the rows that satisfy the mask, in order |
| Frames.Project | src/CategorizeCreditRisk/components/data_preprocessing.py:168 | `df[cols]` has exactly those columns in that order, the same rows, and the same cells |
| Frames.DropColumns | src/CategorizeCreditRisk/components/data_preprocessing.py:56 | `drop(names, axis=1)` keeps every other column in table order, with the same cells |
| Frames.ProjectProject | src/CategorizeCreditRisk/components/data_preprocessing.py:168-184 | projecting a projection is one projection |
| Frames.Column | src/CategorizeCreditRisk/components/data_preprocessing.py:199-200 | `list(df[c])` has one value per row, each the row's cell |
| MissingValues.SentinelCount | src/CategorizeCreditRisk/components/data_preprocessing.py:52 | the count of -99999 cells in a column never exceeds the row count |
| MissingValues.SentinelCountIsFilter | src/CategorizeCreditRisk/components/data_preprocessing.py:52 | the count equals the length of the list of rows holding -99999 in the column |
| MissingValues.SentinelCountIsSelection | src/CategorizeCreditRisk/components/data_preprocessing.py:52 | `df2.loc[df2[c] == -99999].shape[0]`: the count equals the number of rows the mask selects |
| MissingValues.SentinelCountZero | src/CategorizeCreditRisk/components/data_preprocessing.py:52 | the count is zero iff no row holds -99999 in that column |
| MissingValues.CleanInternal | src/CategorizeCreditRisk/components/data_preprocessing.py:36 | fails iff `age_oldest_tl` is missing; otherwise keeps all columns and exactly the rows without -99999 there, in order, with their multiplicities |
| MissingValues.CleanInternalIdempotent | src/CategorizeCreditRisk/components/data_preprocessing.py:36 | the internal cleanup changes nothing the second time |
| MissingValues.MarkedColumns | src/CategorizeCreditRisk/components/data_preprocessing.py:50-53 | a column is marked iff it has more than 10000 cells equal to -99999; marked columns keep table order |
| MissingValues.ColumnsToRemove | src/CategorizeCreditRisk/components/data_preprocessing.py:50-53 | the loop collects exactly the marked columns |
| MissingValues.DropSentinelRows | src/CategorizeCreditRisk/components/data_preprocessing.py:58-59 | the column-by-column row filtering keeps exactly the rows with no -99999 in any column |
| MissingValues.CleanExternal | src/CategorizeCreditRisk/components/data_preprocessing.py:50-59 | keeps a column iff it had at most 10000 -99999 cells; keeps exactly the rows with no -99999 in a kept column; afterwards no kept cell is -99999 |
| MissingValues.CleanExternalIdempotent | src/CategorizeCreditRisk/components/data_preprocessing.py:50-59 | the external cleanup changes nothing the second time |
| MissingValues.CleanExternalData | src/CategorizeCreditRisk/components/data_preprocessing.py:44-59 | the loops compute the external cleanup and the removed columns |
| MissingValues.CommonFeatures | src/CategorizeCreditRisk/components/data_preprocessing.py:65 | a name is a merge key iff both tables have it; keys keep internal order and are distinct |
| MissingValues.ImputeMissingValues | src/CategorizeCreditRisk/components/data_preprocessing.py:26-72 | fails iff `age_oldest_tl` is missing (KeyError); otherwise returns both cleanups and the shared columns |
| MissingValues.MatchesOf | src/CategorizeCreditRisk/components/data_preprocessing.py:81 | the joined rows of one internal row are its unions with exactly the external rows that agree on every key |
| MissingValues.JoinRows | src/CategorizeCreditRisk/components/data_preprocessing.py:81 | a row is in the join iff it unites an internal and an external row that agree on every key |
| MissingValues.InnerJoin | src/CategorizeCreditRisk/components/data_preprocessing.py:81 | fails iff there is no shared column; otherwise the columns are the internal ones, then the external-only ones, the rows are exactly the agreeing pairs, and each row occurs as often as there are agreeing pairs that give it |
| MissingValues.MatchesOfCount | src/CategorizeCreditRisk/components/data_preprocessing.py:81 | one internal row yields a given joined row once for each external row that agrees on the keys and unites with it into that row |
| MissingValues.JoinRowsCount | src/CategorizeCreditRisk/components/data_preprocessing.py:81 | the join holds each row once for each (internal, external) pair of positions that agree on the keys and unite into it |
| MissingValues.MergedRowAgreesWithBoth | src/CategorizeCreditRisk/components/data_preprocessing.py:81 | a merged row carries its internal row's cells and its external row's cells |
| MissingValues.MergeDataframes | src/CategorizeCreditRisk/components/data_preprocessing.py:74-91 | the merge is the inner join of the two cleanups on their shared columns, or the internal cleanup's failure |
| MissingValues.MergedTableMayHoldSentinel | src/CategorizeCreditRisk/components/data_preprocessing.py:36 | a merged row can still hold -99999 in a column only the internal data has |
| FeatureSelection.PartitionFeatures | src/CategorizeCreditRisk/components/data_preprocessing.py:116-122 | categorical = non-target columns of dtype object; numerical = the other non-target columns except `prospectid`; both in table order and distinct |
| FeatureSelection.PartitionDisjoint | src/CategorizeCreditRisk/components/data_preprocessing.py:118-122 | no target is a feature, and no feature is both categorical and numerical |
| FeatureSelection.TargetColumn | src/CategorizeCreditRisk/components/data_preprocessing.py:117-135 | yields `dependent_feature[0]` iff the list is non-empty and names a column; an empty list raises the IndexError and a missing column the KeyError naming it |
| FeatureSelection.ChiSquareSplit | src/CategorizeCreditRisk/components/data_preprocessing.py:133-141 | `keep_these` holds exactly the features with p < 0.05 and `drop_these` the rest, both in order and together the whole list |
| FeatureSelection.CatSelection | src/CategorizeCreditRisk/components/data_preprocessing.py:107-157 | the null check comes first, then the duplicate check, then the target lookup (made only if there is a categorical feature), whose IndexError or KeyError is the stage's failure; on success the dropped columns are exactly the rejected categorical features, every other cell is unchanged, and a categorical feature is kept iff p < 0.05 |
| FeatureSelection.PreprocessCatFeatures | src/CategorizeCreditRisk/components/data_preprocessing.py:107-157 | the stage's loops compute `CatSelection` |
| FeatureSelection.VifStep | src/CategorizeCreditRisk/components/data_preprocessing.py:174-184 | one iteration visits one feature: kept (the table unchanged, the index moved on) or dropped (its column removed, the index unchanged); the rows and the gap between index and kept count stay |
| FeatureSelection.VifAfter | src/CategorizeCreditRisk/components/data_preprocessing.py:173-184 | after `i` iterations, `i` features have been kept or dropped, `column_index` is the number kept, and the table keeps its rows |
| FeatureSelection.VifInvariantHolds | src/CategorizeCreditRisk/components/data_preprocessing.py:173-184 | after each step the VIF table is the input projected onto the kept features plus the unvisited ones, `column_index` is the number kept, and the kept and dropped lists interleave the visited features |
| FeatureSelection.VifInvariantStep | src/CategorizeCreditRisk/components/data_preprocessing.py:174-184 | one iteration, keep or drop, carries the loop invariant from one index to the next |
| FeatureSelection.VifDropStep | src/CategorizeCreditRisk/components/data_preprocessing.py:184 | dropping the current feature from the VIF table leaves the projection onto the others |
| FeatureSelection.VifScoresItsFeature | src/CategorizeCreditRisk/components/data_preprocessing.py:175-179 | `column_index` always points at the feature `raw_num_features[i]` the step names |
| FeatureSelection.VifFinal | src/CategorizeCreditRisk/components/data_preprocessing.py:173-192 | at the end the kept and dropped features partition the input list in order, and the VIF table is the projection onto the kept ones |
| FeatureSelection.VifGrows | src/CategorizeCreditRisk/components/data_preprocessing.py:173-184 | the kept and dropped lists only ever grow at their ends |
| FeatureSelection.VifKeptIff | src/CategorizeCreditRisk/components/data_preprocessing.py:175-183 | a feature is kept iff its VIF, computed on the table as it stood at its turn, is at most 6 (NaN is dropped) |
| FeatureSelection.VifPrune | src/CategorizeCreditRisk/components/data_preprocessing.py:168-184 | the loop computes the VIF pass; kept and dropped interleave the features, and the remaining table is the projection onto the kept features |
| FeatureSelection.VifKept | src/CategorizeCreditRisk/components/data_preprocessing.py:173-184 | the kept features are an ordered, distinct sub-list of the numerical features and are columns of the table |
| FeatureSelection.Group | src/CategorizeCreditRisk/components/data_preprocessing.py:202-205 | a group is no longer than either zipped list |
| FeatureSelection.GroupCountFrom | src/CategorizeCreditRisk/components/data_preprocessing.py:202-205 | from any start position, a value occurs in the group once for each later position where it stands beside the class label |
| FeatureSelection.GroupOrderAndCounts | src/CategorizeCreditRisk/components/data_preprocessing.py:202-205 | a group keeps the values in their order (a subsequence of the value list) and holds each value once for each position where it stands beside the class label |
| FeatureSelection.GroupMembers | src/CategorizeCreditRisk/components/data_preprocessing.py:202-205 | a value is in a class's group iff it stands, within the zipped prefix, beside that class label |
| FeatureSelection.Groups | src/CategorizeCreditRisk/components/data_preprocessing.py:202-207 | the ANOVA receives four groups, for P1, P2, P3 and P4 in that order |
| FeatureSelection.GroupsCover | src/CategorizeCreditRisk/components/data_preprocessing.py:202-205 | the groups together hold at most every value; they hold all of them exactly when every label is one of P1..P4 |
| FeatureSelection.AnovaSplit | src/CategorizeCreditRisk/components/data_preprocessing.py:197-209 | retained holds exactly the features with p ≤ 0.05 and discarded the rest, in order, together the whole list |
| FeatureSelection.CatStageFits | src/CategorizeCreditRisk/components/data_preprocessing.py:153-161 | the categorical stage hands on distinct numerical columns of its table and kept categorical features disjoint from them |
| FeatureSelection.NumFromCat | src/CategorizeCreditRisk/components/data_preprocessing.py:168-217 | fails iff some feature survived VIF and the target is missing, and then with the target lookup's IndexError or KeyError; a feature is retained iff it survived VIF and its ANOVA p-value is at most 0.05; the table and categorical list pass through |
| FeatureSelection.NumSelection | src/CategorizeCreditRisk/components/data_preprocessing.py:159-221 | the categorical stage's failure propagates; otherwise the numerical stage runs on its output, and both lists are distinct, disjoint columns of the table |
| FeatureSelection.PreprocessNumFeatures | src/CategorizeCreditRisk/components/data_preprocessing.py:159-221 | the stage's loops compute `NumSelection` |
| Assembly.ParseInt | src/CategorizeCreditRisk/components/data_preprocessing.py:244 | `int(s)` succeeds iff `s` is digits with an optional sign, and otherwise raises ValueError; the sign decides the sign of the result |
| Assembly.LeadingZero | src/CategorizeCreditRisk/components/data_preprocessing.py:244 | a leading zero does not change the value of a digit string |
| Assembly.ParseIntPrefixes | src/CategorizeCreditRisk/components/data_preprocessing.py:244 | a non-empty digit string reads as its decimal value; a leading `0` or `+` changes nothing and a leading `-` negates it |
| Assembly.ParseIntToString | src/CategorizeCreditRisk/components/data_preprocessing.py:244 | `int` reads back every integer's decimal form |
| Assembly.DecimalValue | src/CategorizeCreditRisk/components/data_preprocessing.py:244 | the decimal digits of n denote n |
| Assembly.Relabel | src/CategorizeCreditRisk/components/data_preprocessing.py:241-242 | the relabelling loop returns the value unchanged or, for a name some tier lists, the number of such a tier; a listed name always becomes a number |
| Assembly.RelabelFirstMatch | src/CategorizeCreditRisk/components/data_preprocessing.py:241-242 | a name becomes the number of the first tier that lists it |
| Assembly.RelabelNoMatch | src/CategorizeCreditRisk/components/data_preprocessing.py:241-242 | a name no tier lists is unchanged |
| Assembly.ApplyEducationMap | src/CategorizeCreditRisk/components/data_preprocessing.py:240-244 | succeeds iff the value is an integer, a level name or an integer string; an integer maps to itself, a level name to 1..4, and every failure is the ValueError on that value |
| Assembly.EducationLevels | src/CategorizeCreditRisk/components/data_preprocessing.py:233-244 | each of the seven level names maps to its tier 1..4 |
| Assembly.OtherStringsParsed | src/CategorizeCreditRisk/components/data_preprocessing.py:240-244 | any other string goes to `int()`, and fails with ValueError when it is not an integer |
| Assembly.EducationMapIdempotent | src/CategorizeCreditRisk/components/data_preprocessing.py:240-246 | applying the map to its own output changes nothing |
| Assembly.FormEncodingAgrees | app.py:26-34 | the prediction form's encoding covers exactly the level names and gives each the same number as the preprocessing map |
| Assembly.EncodeEducation | src/CategorizeCreditRisk/components/data_preprocessing.py:246 | `.apply` on the column succeeds iff every cell maps, and then gives each cell's level in order; otherwise it raises the ValueError of the first cell the map rejects |
| Assembly.EncodeFailureRow | src/CategorizeCreditRisk/components/data_preprocessing.py:246 | a failed encoding of a table's education column names the value of the first row the map rejects |
| Assembly.MapEducation | src/CategorizeCreditRisk/components/data_preprocessing.py:246 | succeeds iff every row's education maps; then only that cell of each row changes; otherwise the first failing row's error is raised |
| Assembly.ProjectKeepsEducation | src/CategorizeCreditRisk/components/data_preprocessing.py:229-230 | selecting columns that include `education` keeps the education column cell for cell |
| Assembly.WithEducation | src/CategorizeCreditRisk/components/data_preprocessing.py:251-252 | the numerical list gains `education` at its end unless it already holds it, keeps its prefix and its distinctness, and gains no other name |
| Seqs.RemoveFirst | src/CategorizeCreditRisk/components/data_preprocessing.py:248 | `list.remove` takes away exactly one occurrence of the name (multiset difference), and leaves a list without the name unchanged |
| Assembly.EducationMoved | src/CategorizeCreditRisk/components/data_preprocessing.py:248-253 | after `remove`, `education` is not in the categorical list and only it was removed; after the append it is in the numerical list, which otherwise keeps its prefix; both assertions always hold |
| Assembly.SelectAndEncode | src/CategorizeCreditRisk/components/data_preprocessing.py:229-246 | succeeds iff `education` was selected and every row's level maps; without `education` it fails with the KeyError for that column, otherwise with the encoding failure of the input's education column (the first rejected row, by `EncodeFailureRow`); the result has the selected columns in order, relabelled education cells and all other cells unchanged |
| Assembly.Assemble | src/CategorizeCreditRisk/components/data_preprocessing.py:229-267 | succeeds iff selection and encoding succeed and both final lists equal their schema lists as multisets; a selection failure passes through, then the categorical mismatch is reported before the numerical one |
| Assembly.PreprocessedData | src/CategorizeCreditRisk/components/data_preprocessing.py:223-271 | the whole preprocessing: the numerical stage's failure, or the assembly of its output |
| Assembly.GetPreprocessedData | src/CategorizeCreditRisk/components/data_preprocessing.py:223-271 | the method, with its in-place list updates and its two assertions, computes `PreprocessedData` |

## Left out

- File I/O is not modelled: `read_excel`, `read_csv`, `to_csv` and the status files. Tables and column lists are parameters, and status files are the strings they would hold.
- The CSV round trip between `save_merged_data` and `_preprocess_cat_features` is not modelled. The merged table is handed on directly, so type changes caused by re-reading are not captured.
- The `save_csv` export is not modelled; `GetPreprocessedData` returns the table.
- Logging and the wrapping of every exception in `CustomException` are not modelled. A failure is the `Err` of the step that raised it.
- Floating-point cells and `inf` are not modelled. Cells are integers, strings or missing.
- The chi-square, VIF and ANOVA computations are oracle parameters, because they are floating-point library code. Exceptions those libraries raise, for example on empty groups, are not modelled.
- `str.lower` is modelled for ASCII letters only; other Unicode case mappings are not.
- `DataPreprocessing.__init__` lower-cases the column names of both raw tables (data_preprocessing.py:17 and :20). That step is not modelled: the preprocessing functions take the tables with lower-case names already, which is why they look up `age_oldest_tl` literally.
- Lower-casing can make two column names equal, for example `AGE` and `age`. pandas then holds a table with a repeated column name. The model's tables have distinct column names (`Frames.WellFormed`), so that case is excluded.
- Assembly.ParseInt: accepts only ASCII decimal digits with an optional sign. Python's `int()` also accepts surrounding whitespace, underscores between digits and non-ASCII Unicode decimal digits; a level string using them is rejected here.
- Assembly.ApplyEducationMap: inherits the `ParseInt` limits above.
- `MissingValues.InnerJoin` states which rows the join holds and how many times each, not the order in which pandas emits them. Suffixing of duplicate column names cannot arise, because every shared column is a key.
- `MissingValues.InnerJoin` compares keys with exact value equality; pandas' coercion between numeric dtypes is not modelled. pandas raises ValueError when an int64 key column is merged with an object key column; the model instead joins such rows with no match, because an `Int` cell never equals a `Str` cell.
- `FeatureSelection.PartitionFeatures` approximates dtype object as "some cell is a string, or the table is empty".
- The target variable is modelled as the list of keys of the schema's `target_variable` entry, which is what `list(self.target_variable)` yields for a mapping. The configuration class annotates the field as a string; that case is not modelled.
- The two education assertions are proved always to hold (`Assembly.EducationMoved`), so the model has no failure for them.
- The rest of the repository is not part of this model: data ingestion, transformation, training, evaluation, prediction, the web form other than its education encoding, the pipeline wrappers and the configuration loading.
