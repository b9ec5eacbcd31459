# SIESTA protein-aware split, modelled in Dafny

SIESTA trains a gradient-boosted classifier on per-variant protein
features. Its one piece of custom logic is `protein_aware_split`. This
function splits the feature table into a training part and a test part. All
rows of one protein (one `uniprotID`) land on the same side, so variants of
a protein cannot leak from training into evaluation. After the split, the
script picks nine fixed feature columns and the `labels` column from each
part.

The model is pure: functions over values, plus lemmas about them.

- `series.dfy` (module `Series`): the column operations the split is
  written with. These are `unique()` (first-appearance order), the `isin`
  mask, the `~` negation and boolean-mask filtering.
- `frames.dfy` (modules `Results`, `Frames`): a table is a header of
  distinct column names plus rows with one cell per column. It defines
  `df[name]`, `df[mask]` and `df[names]`; `df[name]` and `df[names]` raise
  pandas' KeyError for absent columns.
- `siesta.dfy` (module `Siesta`): the test-group count
  `int(len(unique) * test_size)`, `protein_aware_split` itself, the
  feature/label selection, and the lemmas about the split.

Modelling choices:

- Cell values are an abstract type compared only by equality. That covers
  protein identifiers, labels and feature values alike.
- The float `test_size` is an exact fraction `num / den` with `den > 0`.
  `int(...)` is truncation toward zero, written out explicitly.
- The random draw `np.random.choice(unique_proteins, size=n_test,
  replace=False)` is a parameter, `draw`. Its precondition `DrawFits` is
  the sampler's contract: whenever the split gets as far as sampling, `draw`
  holds `n_test` distinct proteins of the table.
- numpy rejects a negative sample size and a sample larger than the
  population (ValueError). The model returns these as error values
  (`NegativeSampleSize`, `SampleLargerThanPopulation`). With the script's
  `test_size=0.2` neither can happen (`SplitSucceedsForUnitFraction`).

## Model

| member | source | states |
|---|---|---|
| `Series.Unique` | SIESTA.py:22 | `unique()` holds no value twice and holds exactly the values of the column |
| `Series.UniqueInFirstAppearanceOrder` | SIESTA.py:22 | the distinct values appear in the order of their first occurrence in the column |
| `Series.UniqueKeepsFirstOccurrences` | SIESTA.py:22 | `unique()` equals the column filtered to the cells that are the first occurrence of their value (independent reference definition) |
| `Series.UniqueLength` | SIESTA.py:22-23 | `len(unique())` is the number of distinct values in the column |
| `Series.DistinctCardinality` | SIESTA.py:24 | a sequence without repeats has as many elements as distinct values; with `replace=False` this makes the draw's size its number of proteins |
| `Series.FullDrawTakesAll` | SIESTA.py:24 | a draw without replacement as large as the population contains every member of it |
| `Series.IsIn` | SIESTA.py:26 | the `isin` mask is true at a row exactly when that row's cell is one of the given values |
| `Series.Negate` | SIESTA.py:27 | `~mask` is true exactly where the mask is false |
| `Series.Positions` | SIESTA.py:26-27 | the true positions of a mask, strictly increasing; every true position is listed and only true positions are |
| `Series.FilterAt` | SIESTA.py:26-27 | boolean-mask filtering yields the cells at the true positions, in their original order |
| `Series.FilterMembership` | SIESTA.py:26-27 | a value survives filtering iff it stands at some true position |
| `Series.FilterComplement` | SIESTA.py:26-27 | filtering by a mask and by its negation together yields every cell exactly once (multiset and length) |
| `Series.FilterConstant` | SIESTA.py:26-27 | an all-true mask keeps everything; an all-false mask keeps nothing |
| `Frames.Column` | SIESTA.py:22 | `df[name]` is the column's cells, row by row, when the column exists; otherwise it is a KeyError naming it |
| `Frames.Where` | SIESTA.py:26-27 | `df[mask]` keeps the header, stays well-formed, and holds only rows of the table |
| `Frames.ColumnOfWhere` | SIESTA.py:31-32 | reading a column of a filtered table is filtering that column |
| `Frames.MissingColumns` | SIESTA.py:61 | the requested names absent from the header are exactly the ones listed |
| `Frames.Select` | SIESTA.py:61 | `df[names]` succeeds iff every name is a column. It then has exactly those columns in request order, with each cell taken from the named source column; otherwise it is a KeyError listing the absent names |
| `Siesta.TruncatedDiv` | SIESTA.py:23 | Python's `int()` of a quotient: the floor for a non-negative dividend, the ceiling for a negative one |
| `Siesta.TestCount` | SIESTA.py:23 | `n_test` is `floor(groups * num / den)` for a non-negative fraction. It is 0 for a zero fraction, every group for the fraction one, and within `[0, groups]` for a fraction in `[0, 1]` |
| `Siesta.Proteins` | SIESTA.py:22 | the table's distinct proteins, without repeats, are exactly the values of the protein column |
| `Siesta.ProteinAwareSplit` | SIESTA.py:14-34 | KeyError without the protein column. ValueError for a negative or too-large sample size. Otherwise success, with two well-formed partitions under the input's header |
| `Siesta.SplitSucceedsForUnitFraction` | SIESTA.py:23-24 | with a fraction in `[0, 1]` the split fails only when the protein column is absent |
| `Siesta.RowsFollowTheirProtein` | SIESTA.py:15-17 | a row is in test iff its protein was drawn, and in train iff it was not; every row of each partition carries a protein of its side |
| `Siesta.SplitCoversInput` | SIESTA.py:26-27 | train and test together hold every input row exactly once (multiset equality), and their sizes add up to the input's |
| `Siesta.SplitPreservesOrder` | SIESTA.py:26-27 | each partition is the input read at strictly increasing positions: those whose protein was drawn (test) or not drawn (train) |
| `Siesta.PartitionProteins` | SIESTA.py:22-27 | test's proteins are exactly the drawn ones; train's are all other proteins of the table; every drawn protein is a protein of the table |
| `Siesta.SplitSeparatesProteins` | SIESTA.py:15-17 | no protein occurs in both partitions, and together they hold every protein of the table |
| `Siesta.SplitProteinCounts` | SIESTA.py:30-32 | test has exactly `n_test` distinct proteins, and train has the remaining `len(unique_proteins) - n_test` |
| `Siesta.SplitWithNoTestProteins` | SIESTA.py:23-27 | when `n_test` is 0 the split succeeds, test is empty and train is the whole table |
| `Siesta.SplitWithAllProteinsInTest` | SIESTA.py:23-27 | when `n_test` is every protein the split succeeds, train is empty and test is the whole table |
| `Siesta.TenProteinsGiveTwoForTesting` | SIESTA.py:44-49 | with the script's `test_size=0.2`, a table of ten proteins puts exactly two in test and eight in train |
| `Siesta.FeaturesAreDistinct` | SIESTA.py:58 | the nine feature names are pairwise distinct, so the selected feature table is well-formed |
| `Siesta.PrepareData` | SIESTA.py:61-65 | succeeds iff all nine features and `labels` are columns. On success: nine feature columns in order, each cell taken from the partition's same row and named column, with labels and features of equal length per partition. On failure: KeyError for the absent features first, else for `labels` |
| `Siesta.TrainingInputs` | SIESTA.py:43-65 | the script reaches the model inputs iff the table has `uniprotID`, `labels` and all nine features; otherwise it stops with a KeyError |

## Left out

- Argument parsing, CSV loading and its exit-1 path (SIESTA.py:8-12, 36-41) are process I/O. They are not modelled; a table is the model's input.
- The console output (SIESTA.py:30-32, 52-55, 96) is printing only. The counts it prints are stated as lemmas instead (`SplitProteinCounts`, `SplitCoversInput`).
- Seeding numpy's global generator and numpy's sampling algorithm (SIESTA.py:19-20, 24) are a foreign pseudo-random generator. The draw is a parameter bound by `DrawFits`, so "the same seed gives the same split" is not modelled, beyond the split being a function of its draw.
- `Siesta.TestCount`: computed on the exact fraction. The script multiplies two floats, and rounding can land just below an integer (`100 * 0.29` evaluates to `28.999999999999996`, giving 28 rather than 29). The model does not capture that rounding.
- Equality of cells is abstract. pandas treats NaN as one value in `unique()` and `isin`, and no NaN-specific behaviour is modelled.
- `StandardScaler` fitting and transforming (SIESTA.py:67-70) is floating-point library numerics and is not modelled.
- The XGBoost configuration and fitting (SIESTA.py:72-91) is an opaque floating-point library model and is not modelled.
- Model persistence with `joblib.dump` (SIESTA.py:93-94) is serialization I/O and is not modelled. So is the fact that the fitted scaler is never saved.
- Only the table operations the split and the selection use are modelled, not pandas' index labels. The rows of a partition keep their order, but their original index labels are not carried.
