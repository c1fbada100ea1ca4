# NYC taxi trip duration: feature-engineering table operations

This project models the table operations of the feature-engineering stage of the
NYC taxi trip-duration pipeline, and proves what each one does to a data frame.

- **Percentile outlier remover** (`OutliersRemover`). Fitting records one
  `(lower, upper)` quantile pair per configured column, in order. Transforming
  applies one inclusive range filter per column, in sequence.
- **Input and target modifications** of the train, validation and test splits.
  - Dropping the identifier columns, depending on the split.
  - Keeping trips with 1 to 6 passengers.
  - Replacing the pickup timestamp by hour, day, month, weekday and an
    `is_weekend` flag.
  - Converting the target `trip_duration` from seconds to minutes and capping it
    at 200 minutes, with the post-hoc check that raises when the cap leaves
    nothing.
  - Their composition, and the `main` branch that applies the target
    modifications only to `train.csv` and `val.csv`.
- **Distance feature builder** (`implement_distances`). It returns the frame
  with three distance columns set from the four coordinate series.

A data frame is a `Frames.Table`: an ordered list of unique column labels and a
list of rows. Each row maps every column label to a cell.

- A cell is a number, a missing value (`NaN`/`NaT`), a string or a timestamp. A
  timestamp is already split into year, month, day, hour and weekday.
- Every comparison against a missing value is false, as in pandas.
- Every pandas exception the stage can raise is an `Error` inside a `Result`:
  - a KeyError on a column label;
  - an IndexError on the percentile list;
  - a datetime cell that cannot be parsed;
  - the ValueError of the target check.

The operations are pure functions, so no input frame is ever modified. This
matches the copies that `fit`, `transform`, `make_datetime_features` and
`implement_distances` take.

The fitted outlier bounds are an immutable list of `ColumnBound` values that is
handed to `Transform`, so there is no "transform before fit" state. The
filename test of `main` is made explicit as the `Mode` datatype.

Library behaviour is passed in as function parameters and left uninterpreted:
- the pandas quantile (`OutliersRemoval.QuantileFn`);
- the three distance formulas (`BuildFeatures.DistanceFns`).

Row filtering is `Seqs.Filter`, a recursive order-preserving filter. Its lemmas
carry the row-level facts:
- the result is a subsequence;
- every copy of an accepted element survives, and none of a rejected one;
- filtering commutes with mapping when the masks agree;
- two filters fuse into one;
- filtering is idempotent;
- filtering distributes over concatenation.

Files:
- `seqs.dfy`: module `Seqs`.
- `frames.dfy`: module `Frames`, the table model and the pandas operations used
  (mask filter, column assignment, column drop).
- `outliers_removal.dfy`: module `OutliersRemoval`.
- `modify_features.dfy`: module `ModifyFeatures`.
- `build_features.dfy`: module `BuildFeatures`.

## Model

| member | source | states |
|---|---|---|
| OutliersRemoval.Fit | src/features/outliers_removal.py:11-23 | Fails with a KeyError naming an absent column of `col_subset`, or with an IndexError on the first missing percentile when fewer than two are given and there is a column to fit; succeeds exactly when neither applies. On success it gives one bound per column of `col_subset`, in order: lower is the quantile at `percentile_values[0]`, upper the quantile at `percentile_values[1]`. |
| OutliersRemoval.StepsIsConjunction | src/features/outliers_removal.py:28-31 | Filtering column by column, each step on the rows that survived the previous ones, equals one filter of the original rows by the conjunction of all bounds. |
| OutliersRemoval.Transform | src/features/outliers_removal.py:25-33 | Fails with a KeyError exactly when a fitted column is absent from the frame. Otherwise the result keeps the columns and is well formed. Its rows are the single conjunctive filter of the input rows: an order-preserving subsequence in which every row meeting all bounds keeps all its copies and every other row has none. Every surviving row has a number within `[lower, upper]` (both ends inclusive) in every fitted column. |
| OutliersRemoval.TransformIdempotent | src/features/outliers_removal.py:28-31 | Transforming an already transformed frame with the same bounds gives the same result. |
| OutliersRemoval.FitThenTransform | src/features/outliers_removal.py:11-33 | After a successful fit, transforming the frame the bounds were fitted on cannot fail. Every surviving row lies between the two fitted quantiles of each column. |
| ModifyFeatures.ConvertTargetToMinutes | src/features/modify_features.py:24-28 | Fails exactly when the target column is absent. Otherwise each numeric target becomes a value that times 60 gives back the original, and a missing target stays missing. The columns, the row count and every other cell are unchanged. |
| ModifyFeatures.MaxNumber | src/features/modify_features.py:35 | `Series.max`: missing values are skipped. The result is missing exactly when there is no number. Otherwise it is one of the numbers and at least every number. |
| ModifyFeatures.DropAboveTwoHundredMinutes | src/features/modify_features.py:30-40 | Keeps exactly the rows whose target is a number at most 200 (inclusive), in order and with every copy of a kept row. It raises the outlier ValueError exactly when no row is kept, because the maximum of an empty column is missing. A missing target column is a KeyError. On success the result is non-empty and its maximum target is at most 200. |
| ModifyFeatures.ConvertedWithinCap | src/features/modify_features.py:127-131 | Some converted row is within 200 minutes exactly when some original trip lasted at most 12000 seconds. |
| ModifyFeatures.CapCommutesWithConversion | src/features/modify_features.py:127-131 | Converting to minutes and then keeping targets of at most 200 minutes gives the same frame as keeping trips of at most 12000 seconds and then converting. |
| ModifyFeatures.TargetModifications | src/features/modify_features.py:127-136 | Converting and capping fails with a KeyError when the target is absent, and with the outlier ValueError when no trip lasted at most 12000 seconds. On success the result equals the frame of the trips of at most 12000 seconds, in order, with their targets converted to minutes. It has the same columns, at least one row and no more rows than the input, and every target is a number of at most 200 minutes. |
| ModifyFeatures.DropUnusedColumns | src/features/modify_features.py:52-72 | Fails with a KeyError exactly when `id` or `store_and_fwd_flag` is absent. In both branches the result has none of `id`, `dropoff_datetime`, `store_and_fwd_flag`; every other column remains, in its original relative order. Rows and their other cells are unchanged. |
| ModifyFeatures.RemovePassengers | src/features/modify_features.py:103-113 | Fails exactly when `passenger_count` is absent. Otherwise it keeps exactly the rows whose passenger count is 1 to 6, in order and with every copy of a kept row, with the same columns. |
| ModifyFeatures.RemovePassengersIdempotent | src/features/modify_features.py:103-109 | Removing passengers a second time changes nothing. |
| ModifyFeatures.MakeDatetimeFeatures | src/features/modify_features.py:75-100 | Fails with a KeyError when `pickup_datetime` is absent, and with a parse error when some cell is neither a timestamp nor missing; succeeds otherwise. A numeric cell counts as unparsable here (see Left out). On success the row count is unchanged and `pickup_datetime` is gone. The columns are the other input columns plus the five derived ones. When those five are new, they follow the remaining columns in order, a net gain of four columns. Each row holds the hour, day of month, month and weekday of its timestamp (missing for NaT). `is_weekend` is 1 exactly when the weekday is 5 or 6 and 0 otherwise. Every other cell is kept. |
| ModifyFeatures.SaturdayPickup | src/features/modify_features.py:86-90 | A pickup at 23:00 on 2016-01-02, with its weekday supplied as 5 (Saturday) since weekdays are not derived from dates here, yields hour 23, day 2, month 1, weekday 5 and `is_weekend` 1. |
| ModifyFeatures.InputModifications | src/features/modify_features.py:116-124 | Succeeds exactly when `id`, `store_and_fwd_flag`, `passenger_count` and `pickup_datetime` are columns and every trip with 1 to 6 passengers has a parseable pickup cell. Otherwise it fails with a KeyError on one of those four absent labels or with the parse error. On success the columns are the input ones without `id`, `dropoff_datetime`, `store_and_fwd_flag` and `pickup_datetime`, plus the five derived ones. Row `i` is the decomposition of the `i`-th input trip with 1 to 6 passengers, with the dropped labels removed and every other cell kept, so every row has a passenger count from 1 to 6. |
| ModifyFeatures.Main | src/features/modify_features.py:154-165 | Succeeds only if the input modifications do. For any filename other than `train.csv` or `val.csv` the result is exactly the input-modification result. For those two files it succeeds exactly when the input modifications do, `trip_duration` is a column, and some trip with 1 to 6 passengers lasted at most 12000 seconds. The result is then the input-modification frame restricted to trips of at most 12000 seconds, with targets in minutes: non-empty, with the target column, every target at most 200 minutes and no more rows than the input. |
| BuildFeatures.ImplementDistances | src/features/build_features.py:16-55 | Lines 51-55: reading the four coordinate columns fails with a KeyError exactly when one of them is absent. Lines 16-27: otherwise the row count and order are kept, and the columns are the input ones plus the three distance columns. When those are new, they are appended as haversine, euclidean, manhattan. In each row every distance column holds its function applied to that row's coordinates, and every other cell is kept. |
| Frames.SetColumn | src/features/build_features.py:24 | Column assignment overwrites an existing column in place or appends a new one. Each row gets its value of the series, and every other cell is unchanged. |
| Frames.DropColumns | src/features/modify_features.py:93 | `drop(columns=…)` fails with a KeyError exactly when a label is not a column. Otherwise it removes exactly those columns from the header and every row, and keeps the order of the rest. |
| Frames.FilterRows | src/features/modify_features.py:33 | A boolean row mask keeps exactly the rows it accepts, as an order-preserving subsequence with the same columns. Every copy of an accepted row survives and no copy of a rejected one does. |
| Seqs.FilterIsSubseq | src/features/outliers_removal.py:30 | A mask filter deletes rows but never reorders the survivors. |
| Seqs.FilterCount | src/features/outliers_removal.py:30 | A mask filter keeps every copy of an accepted row and no copy of a rejected one. |
| Seqs.FilterFusion | src/features/outliers_removal.py:30-31 | Filtering by one mask and then another equals filtering once by their conjunction. |

## Left out

- The distance formulas of `src/features/distances.py` (trigonometry, square roots, floating point) are uninterpreted parameters. So are their zero-distance and symmetry properties.
- The pandas quantile (linear interpolation) is an uninterpreted parameter. So is its rejection of a `q` outside `[0, 1]`, and the missing quantile of a column with no numbers.
- Datetime parsing: a timestamp cell is already decomposed, weekday included. A string cell stands for text that `pd.to_datetime` cannot parse.
- Strings or timestamps in arithmetic or comparisons (pandas raises TypeError) are treated like missing values. This covers the target division and the bound and cap comparisons.
- Duplicate column labels and pandas index alignment between a frame and a series: every frame has unique labels, and every series is aligned with the frame's rows.
- Frames.DropColumns: pandas names every missing label in its KeyError; the model reports the first one in list order.
- ModifyFeatures.ConvertTargetToMinutes: the source assigns into the caller's frame in place. The model returns a new frame. No caller reuses the original frame, so nothing observable differs.
- ModifyFeatures.ConvertTargetToMinutes: numbers are exact reals, not float64. The contract's "times 60 gives back the original" holds for reals but not always for float64 division (31 / 60 * 60 is not 31 in float64). The 200-minute cap decision for integer seconds is the same either way. The same real-number reading applies to the bound and cap comparisons.
- ModifyFeatures.MakeDatetimeFeatures: `pd.to_datetime` also accepts numeric cells, read as nanoseconds since the epoch. The model treats a numeric cell as unparsable and fails, where the source would succeed. Converting epoch counts into calendar fields is not modelled.
- ModifyFeatures.MakeDatetimeFeatures: the row-wise `apply` on a frame with no rows is taken to give an empty `is_weekend` column.
- ModifyFeatures.MakeDatetimeFeatures: the column dtypes (`int` for `is_weekend`, float for hours with NaT) are not modelled; values are reals.
- `plot_target`, `read_data`/`save_data`, `read_dataframe`/`save_dataframe`, the command-line loops and every log call are file, plot or log I/O. The boolean "verify" values written to the log are log content only.
- `src/features/data_preprocessing.py` is not part of this model: scikit-learn column transforms, the power transform and joblib persistence. It also transforms and saves the unfiltered frame rather than the outlier-filtered one, so nothing here claims that saved data is filtered.
- `src/data/make_dataset.py`, `src/data/extract_dataset.py`, `src/logger.py`, `src/models/`, `src/visualization/`, `app.py`, `data_models.py`, `ci_cd_demo.py` and `setup.py` are not part of this model. They hold random splitting, YAML loading, zip extraction, logging, model training and prediction, plotting, web serving and packaging.
- BuildFeatures.ImplementDistances: the loop over the fixed three-entry feature list is written out as three assignments.
