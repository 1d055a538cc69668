# Student outcome pipeline: preprocessing and form encoding

This project models the data core of a student-outcome predictor built on the
Open University Learning Analytics Dataset (OULAD). The data comes in four
tables: student information, the virtual learning environment (VLE)
clickstream, assessment definitions and student assessment results. The
modelled core has three parts:

- **Loading** (`load_and_merge_data`, module `Loading`):
  - sums the clicks of each student;
  - joins the assessment results with the assessment definitions;
  - weights each score by `score * weight / 100`;
  - averages the weighted scores per student, skipping missing scores;
  - left-joins both aggregates onto the student table.
- **Preprocessing** (`preprocess_data`, module `Preprocessing`):
  - fills a missing click total with 0;
  - fills a missing average score with the column's observed mean;
  - collapses the outcome to 1 for "Pass" or "Distinction" and to 0 otherwise;
  - replaces each of gender, region, highest education and age band with a
    label-encoder code fitted on the same table;
  - standard-scales total clicks, average score, studied credits and number
    of previous attempts.
- **Form handling** (module `FormEncoding`):
  - reads the eight form fields;
  - applies the four fixed string-to-code maps to the categorical fields;
  - turns the predicted class into the "Pass"/"Fail" label.

Next to the maps as written, `FormEncoding` defines an encoding through the
classes fitted on the training table. The "## Findings" section below
explains why.

The supporting modules are:

- `Options`: the `Option` and `Result` wrappers.
- `Numbers`: sums, means over present values, filling, and the standard-scaling
  arithmetic.
- `StringOrder`: the code-point order on strings that the label encoder
  sorts by.
- `LabelEncoder`: fitted classes are the sorted distinct values, and a code is
  a position among them.
- `Table`: the student row, generic in the type of its categorical cells and
  of its outcome.

How the model represents the source:

- Numbers are exact `real`s.
- A missing numeric cell (NaN) is `None`. This covers the four numeric
  columns of the student table and the assessment score; every other cell
  always holds a value.
- pandas' `sum` and `mean` skip missing values, and the mean of a column with
  no present value is missing. The model follows these rules, so filling the
  scores fills nothing when no score was observed at all.

The form handler applies four fixed maps, and a value they do not list
becomes a missing cell (`FormEncoding.InlineEncode`).
`FormEncoding.EncodeFormWith` encodes through the classes fitted on the
training table and reports an unseen value as `UnknownCategory`; see
"## Findings".

## Model

| member | source | states |
|---|---|---|
| Loading.GroupClicks | src/data_preprocessing.py:12-13 | The click totals have exactly one key per student in the clickstream, and each total is the sum of `sum_click` over exactly that student's rows. |
| Loading.ClicksAbsent | src/data_preprocessing.py:12 | A student with no clickstream row has no clicks. |
| Loading.Join | src/data_preprocessing.py:16-17 | Every joined row comes from a student assessment and a definition with the same assessment id, and carries `score * weight / 100`. |
| Loading.JoinComplete | src/data_preprocessing.py:16-17 | Every pair of a student assessment and a definition with the same assessment id yields a joined row carrying `score * weight / 100`. |
| Loading.Matches | src/data_preprocessing.py:16-17 | One student assessment joins some definition exactly when one has its id, and each joined row carries that definition's weighted score. |
| Loading.GroupMeanScores | src/data_preprocessing.py:18-19 | The averages have one key per student of the joined table, and each is the mean of that student's present weighted scores (missing when none is present). |
| Loading.TallyStep | src/data_preprocessing.py:18 | Adding one joined row to running per-student sums and counts keeps them equal to the sum and count of each student's present scores so far. |
| Loading.ScoresOfSnoc | src/data_preprocessing.py:18 | A new joined row adds its score to its own student's scores and leaves every other student's scores unchanged. |
| Loading.TalliedAverages | src/data_preprocessing.py:18-19 | Dividing the running sums by the running counts gives each student's mean of present scores. |
| Loading.LoadAndMerge | src/data_preprocessing.py:22 | One output row per student-information row, in order, with its own columns unchanged. The click total is the student's sum, or missing when the student has no clicks. The score is the mean of the student's weighted scores, or missing. |
| Numbers.ObservedMeanMissingIff | src/data_preprocessing.py:29 | The mean over present values is missing exactly when every cell is missing. |
| Numbers.FillMissing | src/data_preprocessing.py:29 | Filling keeps every present cell and puts the fill value in every missing one. |
| Numbers.MeanImputationKeepsMean | src/data_preprocessing.py:29 | Filling the missing cells with the observed mean leaves the column's mean unchanged. |
| Numbers.StandardizeRoundTrip | src/data_preprocessing.py:42-43 | `(x - mean) / scale` maps back to `x`, and a missing value stays missing. |
| Numbers.StandardizedColumnCentred | src/data_preprocessing.py:42-43 | A column scaled by its own observed mean has observed mean zero. |
| StringOrder.LessTransitive | src/data_preprocessing.py:37-38 | The order the classes are sorted by is transitive. |
| StringOrder.LessTotal | src/data_preprocessing.py:37-38 | Any two distinct strings are ordered one way or the other. |
| LabelEncoder.Insert | src/data_preprocessing.py:37-38 | Adding a value to sorted distinct classes keeps them sorted and adds exactly that value. |
| LabelEncoder.Classes | src/data_preprocessing.py:37-38 | The fitted classes are strictly sorted and hold exactly the column's distinct values. |
| LabelEncoder.SortedUnique | src/data_preprocessing.py:37-38 | Two strictly sorted lists with the same values are equal, so the classes depend only on the set of values. |
| LabelEncoder.ClassCount | src/data_preprocessing.py:37-38 | There are as many classes as distinct values in the column. |
| LabelEncoder.CodeOf | src/data_preprocessing.py:38 | A value's code is below the number of classes and decodes back to that value. |
| LabelEncoder.CodeOfDecoded | src/data_preprocessing.py:38 | Encoding a decoded code gives the code back. |
| LabelEncoder.CodeOrder | src/data_preprocessing.py:38 | One code is below another exactly when its value sorts before the other's. |
| LabelEncoder.EncodeColumn | src/data_preprocessing.py:38 | `fit_transform` keeps the length, and every code lies below the number of distinct values and decodes back to the cell it replaced. |
| LabelEncoder.EncodeColumnFaithful | src/data_preprocessing.py:38 | Two cells get equal codes exactly when they hold equal values, and codes follow the sorted order of the values. |
| Preprocessing.FillClicks | src/data_preprocessing.py:28 | A missing click total becomes 0, present totals and every other column are unchanged, and no total is missing afterwards. |
| Preprocessing.FillScores | src/data_preprocessing.py:29 | A missing score becomes the observed mean of the score column, and present scores and every other column are unchanged. |
| Preprocessing.FillScoresComplete | src/data_preprocessing.py:29 | After filling, no score is missing exactly when the table is empty or has at least one observed score. |
| Preprocessing.FillScoresKeepsMean | src/data_preprocessing.py:29 | Filling the scores does not move their mean. |
| Preprocessing.Binarize | src/data_preprocessing.py:32 | The target is 0 or 1, and it is 1 exactly for "Pass" or "Distinction". |
| Preprocessing.BinarizeRows | src/data_preprocessing.py:32 | Only the outcome column changes, and it becomes the binarized outcome. |
| Preprocessing.Fit | src/data_preprocessing.py:35-38 | Each column's fitted classes are sorted and hold exactly that column's distinct values. |
| Preprocessing.EncodeRow | src/data_preprocessing.py:38 | Only the categorical cells change, and each becomes a code that decodes back to the original value. |
| Preprocessing.EncodeCategoricals | src/data_preprocessing.py:35-38 | Row count and order are kept, non-categorical columns are unchanged, and each code decodes back through its column's fitted classes. |
| Preprocessing.EncodedCell | src/data_preprocessing.py:38 | Each encoded cell is the code of the raw value among the classes fitted on its own column. |
| Preprocessing.EncodedColumns | src/data_preprocessing.py:35-38 | Each encoded column is the label encoder's `fit_transform` of the raw column. |
| Preprocessing.EncodingFaithful | src/data_preprocessing.py:35-38 | Codes lie below the number of distinct values, are equal exactly for equal values, and follow the sorted order of the values. |
| Preprocessing.ScaleRow | src/data_preprocessing.py:41-43 | Scaling touches exactly the four numeric columns, keeps a cell missing exactly when it was missing, and maps back to the original values. |
| Preprocessing.ScaleRows | src/data_preprocessing.py:41-43 | Row count and order are kept, and each row is scaled with the same parameters. |
| Preprocessing.ScaledColumnIs | src/data_preprocessing.py:43 | Each numeric column of the scaled table is the raw column standardized with that column's parameters. |
| Preprocessing.ScaledColumnsCentred | src/data_preprocessing.py:41-43 | With means fitted on the same table, every scaled column has observed mean zero. |
| Preprocessing.PreprocessData | src/data_preprocessing.py:25-45 | `preprocess_data` keeps the number of rows. |
| Preprocessing.PreparedRows | src/data_preprocessing.py:28-32 | After filling and binarization, each row is its raw row with 0 for a missing click total, the observed mean for a missing score, and a 0/1 outcome. |
| Preprocessing.FitAfterPreparation | src/data_preprocessing.py:28-38 | Filling and binarization do not change the classes fitted on the categorical columns. |
| Preprocessing.PreprocessedIs | src/data_preprocessing.py:25-45 | Each output row is its prepared row, encoded with the classes fitted on the raw table and then scaled. |
| Preprocessing.PreprocessDataOutcome | src/data_preprocessing.py:32 | The student stays in place, and the label is 1 for "Pass" or "Distinction" and 0 otherwise. |
| Preprocessing.PreprocessDataCategorical | src/data_preprocessing.py:35-38 | Each categorical cell becomes a code below the column's number of distinct values, and the code decodes back to the raw value through the sorted classes. |
| Preprocessing.PreprocessDataNumeric | src/data_preprocessing.py:28-43 | The scaled values map back to the filled ones: 0 for a missing click total, the observed mean for a missing score, and every present value to itself. |
| Preprocessing.PreprocessDataComplete | src/data_preprocessing.py:28-29 | No click total is missing after preprocessing, and no score is missing when at least one score was observed. |
| FormEncoding.ReadForm | src/app.py:22-31 | The request is read exactly when all eight fields are present and the four numeric ones parse. The record then holds the submitted texts and parsed numbers. |
| FormEncoding.ReadFormFirstError | src/app.py:22-31 | A rejected form reports the first unreadable field in reading order, either as missing or as not a number. |
| FormEncoding.InlineCodesArePositions | src/app.py:36-39 | A value has an inline code exactly when its map lists it, and the code is its position in the listed order. |
| FormEncoding.InlineCodesInjective | src/app.py:36-39 | No two values of an inline map share a code, and codes lie below the size of the map. |
| FormEncoding.InlineEncode | src/app.py:34-39 | A categorical cell is missing exactly when its map does not list the value, and a present cell is the value's listed position. The numeric fields pass through unchanged. |
| FormEncoding.InlineGenderDisagrees | src/app.py:36 | On a gender column holding "M" and "F", the form encodes "M" as 0 while training encodes it as 1. |
| FormEncoding.InlineRegionDisagrees | src/app.py:37 | On a region column holding the four regions, the form encodes "North" as 0 while training encodes it as 1. |
| FormEncoding.InlineOrderAgrees | src/app.py:38-39 | The education and age-band maps give the training code to every value of a column holding exactly the listed values. |
| FormEncoding.InlineNumbersUnscaled | src/app.py:27-30 | In a one-row training table with 100 clicks, scaled with the click mean fitted on that table, the row reaches the model as 0 through `preprocess_data`, whatever the fitted scale. A request with 100 clicks reaches the model as 100. |
| FormEncoding.EncodeFormWith | src/app.py:33-39 | Encoding succeeds exactly when every categorical value is a fitted class, and an unknown value is reported for its field. Codes decode back to the submitted values, and the scaled numbers map back to the submitted ones. |
| FormEncoding.FormMatchesTraining | src/app.py:33-39 | A request that repeats a training row with all numbers present is encoded exactly as `preprocess_data` encodes that row. |
| FormEncoding.PredictionLabel | src/app.py:43 | The label is "Pass" exactly when the predicted class is 1 and "Fail" otherwise; the JSON route uses the same rule at line 64. |
| FormEncoding.PredictionLabelOfTarget | src/app.py:43 | For a training target, the label reads "Pass" exactly when the raw outcome was a pass or a distinction. |

## Left out

- Reading the four CSV files (src/data_preprocessing.py:6-9) is I/O: their rows are the inputs of `Loading.LoadAndMerge`.
- The Flask routes, templates and logging setup (src/app.py:8-20, 52-69, src/utils.py) are I/O.
- Fitting the standard scaler is left out because it needs a square root. Its parameters are inputs (`Preprocessing.Scaler`) with a non-zero scale. `Preprocessing.ScaledColumnsCentred` takes means fitted on the same table as a precondition. Behaviour for a zero standard deviation is not modelled.
- Floating-point rounding is left out: numbers are exact reals.
- Python's `float()` is the `parse` parameter of `FormEncoding.ReadForm`; NaN and infinity texts are not modelled.
- The classifiers, the model loading and the SHAP explanations (src/model/, src/app.py:11-12, 42, 46-50) wrap libraries whose behaviour is not visible here. The predicted class is an input of `FormEncoding.PredictionLabel`.
- The `/api/predict` route's call to `preprocess_data` on a single request row (src/app.py:58-61) is left out. That call refits the encoders and the fill mean on one row, and it needs an outcome column that a request lacks. The route's label rule is modelled.
- A missing categorical value, a missing click count (`sum_click`) or a missing assessment weight cannot be represented: those cells are plain values. pandas would skip a missing click count in the sum and a missing weight in the mean, and the label encoder's treatment of a missing category depends on the scikit-learn version.
- The model assumes that the chained in-place fills at src/data_preprocessing.py:28-29 write through to the table, as they do in pandas 2.x (with a warning). Under pandas' copy-on-write mode, the default from pandas 3.0, those two lines leave the table unchanged. `preprocess_data` also rewrites the caller's table in place; the model returns a new table instead.
- Columns of the student-information table that the pipeline never touches are left out of `Table.Row`.
- The row order of pandas' inner join (src/data_preprocessing.py:16) is not modelled. `Loading.Join` lists the rows in student-assessment order, and per-student means do not depend on the order.
- Loading.Join: states that every joined row comes from a matching pair, and `Loading.JoinComplete` that every matching pair yields a row; how many times a pair appears is not stated. The averages are stated through `Loading.ScoresOf` of the join itself.
- FormEncoding.EncodeFormWith: states that an unknown category is reported for some unknown field, not that it is the first one in column order.
- Preprocessing.PreprocessData: its own contract states only the row count; the per-row facts are in the `PreprocessData…` lemmas.
- Preprocessing.PreprocessData: on an empty table the source raises, because the standard scaler cannot be fitted on zero rows (src/data_preprocessing.py:43). The model returns an empty table instead.

## Findings

| source | as written | input that shows it | evidently intended | confidence | as-written member | corrected member |
|---|---|---|---|---|---|---|
| src/app.py:36 | The form maps gender M→0, F→1. | A training gender column holding "M" and "F" encodes "M" as 1, but the form sends 0. | The codes the label encoder fitted in training: F→0, M→1. | not executed | FormEncoding.InlineGenderDisagrees | FormEncoding.FormMatchesTraining |
| src/app.py:37 | The form maps region North→0, South→1, East→2, West→3. | A training region column holding all four regions encodes "North" as 1, but the form sends 0. | The fitted codes East→0, North→1, South→2, West→3. | not executed | FormEncoding.InlineRegionDisagrees | FormEncoding.FormMatchesTraining |
| src/app.py:27-39 | The four numeric fields reach the model as submitted. | A training table holding one row with 100 clicks fits a click mean of 100, so `preprocess_data` gives that row 0; a request with the same 100 clicks reaches the model as 100. | The standard scaling fitted in training, as applied to the training rows. | not executed | FormEncoding.InlineNumbersUnscaled | FormEncoding.FormMatchesTraining |
