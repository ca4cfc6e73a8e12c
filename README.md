# Financial-aid preprocessing, ranking and the LLaMA 2 chat backend, in Dafny

This project models four pieces of the repository and proves properties of them:

- **`DataPreprocessor`** (`Financial-Aid_Post-Capitalism/preprocessing.py`). It is the pipeline that turns
  the raw world-data frame into a numeric frame scaled into `feature_range`. The stages run in order:
  1. currency and percentage columns are converted, in place in the caller's frame;
  2. gaps are filled with each column's median or mean;
  3. the numeric columns are KNN-imputed and put in front of the other columns;
  4. the frame is min-max normalised.
- **`FinancialAidAnalysis`** (`PostCapitalism_Wealth-Redistribution/predict.py`).
  - `customized_ranking` stores the double-argsort ranks of the model's predictions as
    `Financial_Aid_Rank`.
  - `sensitivity_analysis` recomputes those ranks with one feature shifted by
    -10, -8, …, 10.
- **`Utility`** (`LLaMA_2/IFex-AI/backend/utility.py`): the error-message formatter, the memoising
  call wrapper and the string validator.
- **`LLaMA2Chat`** (`LLaMA_2/IFex-AI/backend/llama2chat.py`).
  - A per-query cache of generated "needs" texts.
  - The counting methodology: the text of the last query that was not already cached.
  - The dialog template built from image features.

  As written, the `LLaMA2Chat` constructor cannot finish. Its first statement (`llama2chat.py:10`) calls
  `utility.load_llama_model()`, which `Utility` does not define, so it raises `AttributeError`. Lines 12-13,
  which set the methodology and the cache, are never reached. Every `LLaMA2Chat` behaviour modelled
  here therefore belongs to an object the source as written cannot build. The model describes the
  object the class body describes once construction succeeds.

## How the model is built

- A pandas frame is a value `Frames.Table`: a row count and an ordered sequence of named columns.
  - Each column is numeric (`Option<real>` cells) or text (`Option<string>` cells).
  - `None` is a missing cell.
  - Rows are positions.
- Code that changes a caller's object in place is a class with methods:
  - `Frames.Frame`, used by `convert_currency_and_percentage_columns` and so by `preprocess_data`;
  - `FinancialAidAnalysis.data`;
  - `Utility.cache`;
  - `LLaMA2Chat`'s cache and methodology.
- Stages that build new frames are functions.
- Library behaviour that cannot be seen here is a parameter:
  - `astype(float)` on a string is `parse: string -> Option<real>`;
  - the KNN estimator is `imputer`;
  - the trained model's `predict` is `predict`;
  - the tokenizer/generate/decode chain is `generate`;
  - `str()` of floats and of argument tuples is `show`/`showArgs`/`showKwargs`.
- Python exceptions are `Frames.Error` values returned in a `Result`.
- numpy's `argsort` is not stable.
  - The model sorts with one concrete stable order.
  - `Ordering.DoubleArgsortRanks` proves the rank properties for *every* pair of sorting orders numpy
    might pick.

`normalize_features` parses every text column with `astype(float)`, so no column is exempt from
scaling. A frame that still holds a text column of names raises `ValueError` there.
`Preprocessing.NormalizeFeatures` fails exactly when some text column does not parse, or when
`MinMaxScaler` refuses the frame.

## Model

Supporting definitions that carry no contract of their own (such as `Preprocessing.ScaleCell`,
`Statistics.Sum`, `Statistics.Middle` and the predicates `Predict.Shiftable` and `Predict.ShiftedCells`) have no row; the rows of the members
that use them state what they compute.

| member | source | states |
|---|---|---|
| Preprocessing.Strip | Financial-Aid_Post-Capitalism/preprocessing.py:39 | the result holds only characters of the input outside the dropped set, and a string with nothing to drop is returned unchanged |
| Preprocessing.StripAppend | Financial-Aid_Post-Capitalism/preprocessing.py:39-41 | removing characters from a concatenation removes them from each part, keeping the order of what stays |
| Preprocessing.StripCons | Financial-Aid_Post-Capitalism/preprocessing.py:39-41 | a leading character stays in front exactly when it is not dropped |
| Preprocessing.StripChar | Financial-Aid_Post-Capitalism/preprocessing.py:39-41 | a single character is removed exactly when it is in the dropped set |
| Preprocessing.StripKeeps | Financial-Aid_Post-Capitalism/preprocessing.py:39-41 | a string with no dropped character is returned unchanged |
| Preprocessing.StripTwoDropped | Financial-Aid_Post-Capitalism/preprocessing.py:39 | with a dropped character in front and one in the middle, what is left is the two kept runs joined in order |
| Preprocessing.CurrencyStripped | Financial-Aid_Post-Capitalism/preprocessing.py:39 | `"$1,000"` loses `$` and `,` and becomes `"1000"` |
| Preprocessing.CurrencyExample | Financial-Aid_Post-Capitalism/preprocessing.py:36-39 | a text column `["$1,000", missing]` becomes the numeric column `[1000, missing]` under the same name |
| Preprocessing.CurrencyCellsParse | Financial-Aid_Post-Capitalism/preprocessing.py:39 | the currency conversion of the cells `["$1,000", missing]` gives `[1000, missing]` |
| Preprocessing.TwoCellsParse | Financial-Aid_Post-Capitalism/preprocessing.py:39-41 | two cells that each convert convert together, each to its own value, in order |
| Preprocessing.StripIdempotent | Financial-Aid_Post-Capitalism/preprocessing.py:39-41 | removing the currency or percent characters a second time changes nothing |
| Preprocessing.Detect | Financial-Aid_Post-Capitalism/preprocessing.py:38-41 | a value is currency exactly when it contains `$`, and percentage exactly when it contains `%` but no `$` (the `$` test comes first) |
| Preprocessing.FirstPresent | Financial-Aid_Post-Capitalism/preprocessing.py:37 | `dropna().iloc[0]`: none exactly when every cell is missing, otherwise a present cell with only missing cells before it |
| Preprocessing.ParseCell | Financial-Aid_Post-Capitalism/preprocessing.py:39-41 | a missing cell stays missing; a present one is stripped, parsed and divided, and fails with ValueError exactly when it does not parse |
| Preprocessing.ParseCells | Financial-Aid_Post-Capitalism/preprocessing.py:39-41 | a whole column converts exactly when every cell does, cell by cell and length kept; otherwise the error is a ValueError |
| Preprocessing.ConvertColumn | Financial-Aid_Post-Capitalism/preprocessing.py:36-41 | numeric columns are kept; a text column with no present value raises IndexError; otherwise the first present value chooses currency (strip `\`, `$`, `,`), percentage (strip `%`, divide by 100) or no change; name and length are kept |
| Preprocessing.PercentageExample | Financial-Aid_Post-Capitalism/preprocessing.py:40-41 | a text column `[missing, "10%"]` becomes the numeric column `[missing, 0.1]` |
| Preprocessing.FirstFailure | Financial-Aid_Post-Capitalism/preprocessing.py:35-41 | the position of the first column whose conversion raises: every earlier column converts and that one fails |
| Preprocessing.ConvertAll | Financial-Aid_Post-Capitalism/preprocessing.py:34-42 | succeeds exactly when no column raises, and then each column is its own conversion; otherwise the error is the first failing column's |
| Preprocessing.ConvertKeepsShape | Financial-Aid_Post-Capitalism/preprocessing.py:34-42 | conversion keeps the column names in order and the frame's well-formedness |
| Preprocessing.ConvertCurrencyAndPercentageColumns | Financial-Aid_Post-Capitalism/preprocessing.py:34-42 | the loop over the caller's frame ends in exactly `ConvertAll`'s result; on an exception the columns before the failing one are already replaced and the rest are untouched |
| Preprocessing.FillValue | Financial-Aid_Post-Capitalism/preprocessing.py:46-49 | the median or mean fill value lies between the column's minimum and maximum |
| Preprocessing.FillColumn | Financial-Aid_Post-Capitalism/preprocessing.py:47-49 | `fillna` of one column: present cells are kept, and every gap of a numeric column with some present value gets the column's statistic; text columns and all-missing columns are unchanged |
| Preprocessing.HandleMissingValues | Financial-Aid_Post-Capitalism/preprocessing.py:44-51 | succeeds exactly for `median` or `mean`, filling each column; any other strategy raises `ValueError("Invalid missing value strategy: …")` |
| Preprocessing.HandleMissingFillsGaps | Financial-Aid_Post-Capitalism/preprocessing.py:46-49 | afterwards a numeric column with any present value has no gap, every cell lies within the observed range, and observed cells and text columns are unchanged |
| Preprocessing.HandleMissingKeepsShape | Financial-Aid_Post-Capitalism/preprocessing.py:44-51 | filling keeps column names and well-formedness |
| Preprocessing.NumericPart | Financial-Aid_Post-Capitalism/preprocessing.py:27 | `select_dtypes(include=['number'])`: exactly the numeric columns |
| Preprocessing.TextPart | Financial-Aid_Post-Capitalism/preprocessing.py:28 | `select_dtypes(exclude=['number'])`: exactly the other columns |
| Preprocessing.PartsCons | Financial-Aid_Post-Capitalism/preprocessing.py:27-28 | a leading column goes in front of exactly one of the two selections, by its type |
| Preprocessing.PartsOfOne | Financial-Aid_Post-Capitalism/preprocessing.py:27-28 | a single numeric column is the whole numeric selection and the text one is empty, and the other way round |
| Preprocessing.NumericAppend | Financial-Aid_Post-Capitalism/preprocessing.py:27 | the numeric selection of two column runs is the selection of the first followed by that of the second, so column order is kept |
| Preprocessing.TextAppend | Financial-Aid_Post-Capitalism/preprocessing.py:28 | the same for the non-numeric selection |
| Preprocessing.PartsAppend | Financial-Aid_Post-Capitalism/preprocessing.py:26-32 | both selections split over a concatenation of columns, in order |
| Preprocessing.PartitionNames | Financial-Aid_Post-Capitalism/preprocessing.py:27-28 | the two selections together hold every column name exactly as often as the frame does |
| Preprocessing.CellsOf | Financial-Aid_Post-Capitalism/preprocessing.py:30 | the block handed to the estimator holds each numeric column's cells |
| Preprocessing.Relabel | Financial-Aid_Post-Capitalism/preprocessing.py:31 | the estimator's output columns take the names of the numeric columns they came from |
| Preprocessing.ImputeMissingValuesWithKnn | Financial-Aid_Post-Capitalism/preprocessing.py:26-32 | fails exactly when the estimator fails or returns the wrong shape (ValueError); otherwise the imputed numeric columns under their own names come first, followed by the unchanged other columns |
| Preprocessing.KnnKeepsObservedCells | Financial-Aid_Post-Capitalism/preprocessing.py:29-31 | with an estimator that keeps observed cells (as KNN imputation does), only missing numeric cells change |
| Preprocessing.KnnReordersColumnsOnly | Financial-Aid_Post-Capitalism/preprocessing.py:26-32 | the KNN stage loses no column name and adds none, keeps every text column intact and keeps the frame well formed |
| Preprocessing.ParseNumbers | Financial-Aid_Post-Capitalism/preprocessing.py:55 | a text column is stripped of `,` and parsed into a numeric column of the same name and length, or fails; a numeric column is kept |
| Preprocessing.ParseAllNumbers | Financial-Aid_Post-Capitalism/preprocessing.py:55 | `apply` succeeds exactly when every column parses, and then holds each column's parse |
| Preprocessing.ScaleWithin | Financial-Aid_Post-Capitalism/preprocessing.py:56-57 | a value within the column's range is scaled into the feature range |
| Preprocessing.ScaleMonotone | Financial-Aid_Post-Capitalism/preprocessing.py:56-57 | min-max scaling keeps the order of values |
| Preprocessing.ScaleAtMax | Financial-Aid_Post-Capitalism/preprocessing.py:56-57 | the maximum of a non-constant column is scaled to the upper bound |
| Preprocessing.ScaleOnOwnRange | Financial-Aid_Post-Capitalism/preprocessing.py:56-57 | scaling with the feature range as the column's range is the identity |
| Preprocessing.ScaleColumn | Financial-Aid_Post-Capitalism/preprocessing.py:56-57 | `fit_transform` of one column: length and gaps kept, every present value within the feature range |
| Preprocessing.ScaleAttainsRange | Financial-Aid_Post-Capitalism/preprocessing.py:56-57 | the minimum goes to `low`; the maximum goes to `high` unless the column is constant, in which case everything goes to `low`; order is kept |
| Preprocessing.ScaledRange | Financial-Aid_Post-Capitalism/preprocessing.py:56-57 | a scaled column's present values range exactly from `low` to `high` (to `low` alone if it was constant) |
| Preprocessing.ScaleIdempotent | Financial-Aid_Post-Capitalism/preprocessing.py:56-57 | scaling an already scaled column changes nothing |
| Preprocessing.MinMaxScale | Financial-Aid_Post-Capitalism/preprocessing.py:56-57 | a constant column's values, and a column's minimum, go to the lower bound of the feature range |
| Preprocessing.NormalizeFeatures | Financial-Aid_Post-Capitalism/preprocessing.py:53-57 | succeeds exactly when every text column parses, the range is increasing, and the frame has at least one row and one column (`MinMaxScaler` refuses empty input); then rows and names are kept and each column is its parsed cells, min-max scaled |
| Preprocessing.NormalizeRaisesValueError | Financial-Aid_Post-Capitalism/preprocessing.py:53-57 | every refusal of the normalising stage, parse failure or scaler refusal, is a ValueError |
| Preprocessing.NormalizedIsInRange | Financial-Aid_Post-Capitalism/preprocessing.py:53-57 | after normalising, every column is numeric, the frame stays well formed, and every present value lies in the feature range |
| Preprocessing.NormalizeIdempotent | Financial-Aid_Post-Capitalism/preprocessing.py:53-57 | normalising a normalised frame again gives the same frame |
| Preprocessing.Preprocess | Financial-Aid_Post-Capitalism/preprocessing.py:62-65 | the stages run in order and the first to raise ends the pipeline: a conversion error is returned as is, and an unknown strategy then raises `ValueError("Invalid missing value strategy: …")` |
| Preprocessing.PreprocessShape | Financial-Aid_Post-Capitalism/preprocessing.py:59-67 | the pipeline keeps the row count and every column name, keeps well-formedness, and yields only numeric columns within the feature range |
| Preprocessing.PreprocessData | Financial-Aid_Post-Capitalism/preprocessing.py:59-67 | returns the four stages chained in order; the caller's frame ends converted up to the first failing column, since stage one works on it in place |
| Frames.Names | PostCapitalism_Wealth-Redistribution/predict.py:43 | `df.columns`: each column's name, in order |
| Frames.Find | PostCapitalism_Wealth-Redistribution/predict.py:43 | the first column of a name, or none exactly when no column has that name |
| Frames.Select | PostCapitalism_Wealth-Redistribution/predict.py:43 | `data[selected_features]`: succeeds exactly when every name is a column (otherwise KeyError naming a missing one), holding those columns in the listed order with the same rows |
| Frames.SetColumn | PostCapitalism_Wealth-Redistribution/predict.py:45 | assigning a column replaces the one of that name in place or appends it; every other column and the row count are kept, and well-formedness too |
| Ordering.Insert | PostCapitalism_Wealth-Redistribution/predict.py:45 | one insertion step of the sort: one more index, the same indices plus the new one |
| Ordering.InsertSorted | PostCapitalism_Wealth-Redistribution/predict.py:45 | insertion keeps an index list sorted by its keys |
| Ordering.InsertDistinct | PostCapitalism_Wealth-Redistribution/predict.py:45 | insertion of a new index keeps the list free of repeats |
| Ordering.ArgsortPrefix | PostCapitalism_Wealth-Redistribution/predict.py:45 | the sort of the first `m` indices is a sorted, repeat-free list of exactly 0..m-1 |
| Ordering.Argsort | PostCapitalism_Wealth-Redistribution/predict.py:45 | `argsort` is a permutation of the indices that lists the values in non-decreasing order |
| Ordering.AsKeys | PostCapitalism_Wealth-Redistribution/predict.py:45 | the index vector as values for the second `argsort` |
| Ordering.Ranks | PostCapitalism_Wealth-Redistribution/predict.py:45 | `argsort().argsort()` is a permutation of 0..n-1 in which a smaller prediction gets a smaller rank, and a smaller rank never has a larger prediction |
| Ordering.DoubleArgsortRanks | PostCapitalism_Wealth-Redistribution/predict.py:45 | for any sorting orders numpy might pick, the second argsort inverts the first and ranks the values consistently |
| Ordering.IncreasingIsIdentity | PostCapitalism_Wealth-Redistribution/predict.py:45 | a strictly increasing list of n indices below n is 0..n-1, the step behind inverting the argsort |
| Predict.RankColumn | PostCapitalism_Wealth-Redistribution/predict.py:45 | the ranks stored as the numeric column `Financial_Aid_Rank`, one cell per rank |
| Predict.Ranking | PostCapitalism_Wealth-Redistribution/predict.py:43-45 | succeeds exactly when the features exist and the prediction vector has one entry per row; a missing feature's KeyError propagates; the column holds the prediction ranks |
| Predict.RankColumnIsPermutation | PostCapitalism_Wealth-Redistribution/predict.py:45 | the rank column holds each of 0..n-1 exactly once, and a row with a smaller prediction has a smaller rank |
| Predict.RankingAddsOneColumn | PostCapitalism_Wealth-Redistribution/predict.py:45 | on a frame without a rank column, ranking appends exactly that column and keeps everything else and well-formedness |
| Predict.ShiftCells | PostCapitalism_Wealth-Redistribution/predict.py:77 | `+= change` moves every present cell by `change` and leaves gaps |
| Predict.ShiftColumn | PostCapitalism_Wealth-Redistribution/predict.py:77 | a shiftable column keeps its name and kind: a numeric one has its cells shifted, an all-missing text one is returned as it is |
| Predict.Shift | PostCapitalism_Wealth-Redistribution/predict.py:77 | KeyError when the feature is not a column; TypeError exactly when a text column of that name holds a present cell (and every other failure is that TypeError); otherwise the numeric columns of that name are shifted, an all-missing text column of that name is kept, and every other column is unchanged |
| Predict.ShiftedColumn | PostCapitalism_Wealth-Redistribution/predict.py:77 | after a successful shift, every column of the feature's name is shiftable and is its own shifted column |
| Predict.ShiftColumnShifts | PostCapitalism_Wealth-Redistribution/predict.py:77 | shifting a numeric column moves each present cell by exactly `change` and keeps its gaps and length |
| Predict.ShiftTextColumn | PostCapitalism_Wealth-Redistribution/predict.py:77 | on a text column, `+= change` raises exactly when some cell is present, and an all-missing column (or one with no rows) comes back unchanged |
| Predict.Altered | PostCapitalism_Wealth-Redistribution/predict.py:76-77 | the copy is `data[selected_features]`: a failed selection's KeyError is returned, and a feature outside the selected features raises KeyError naming it |
| Predict.AlteredOutcomeIgnoresChange | PostCapitalism_Wealth-Redistribution/predict.py:76-77 | whether a sweep step's frame can be built, and what it raises, does not depend on the shift |
| Predict.AlteredKeepsOtherFeatures | PostCapitalism_Wealth-Redistribution/predict.py:76-77 | the altered copy has the data's rows and the selected names, and every other selected column unchanged |
| Predict.AlteredShiftsFeature | PostCapitalism_Wealth-Redistribution/predict.py:76-77 | in the altered copy every numeric column of the feature's name has each present cell moved by exactly `change` and each gap kept |
| Predict.AlteredKeepsTextFeature | PostCapitalism_Wealth-Redistribution/predict.py:76-77 | in the altered copy a text column of the feature's name is all-missing and kept as it was |
| Predict.StepRanks | PostCapitalism_Wealth-Redistribution/predict.py:76-79 | one sweep step fails exactly when the altered frame does, with its error; otherwise it gives the ranks of the model's predictions on the altered frame, a permutation of the prediction indices |
| Predict.StepOutcomeIgnoresChange | PostCapitalism_Wealth-Redistribution/predict.py:75-79 | every step of the sweep fails or succeeds together, with the same error |
| Predict.FinancialAidAnalysis.constructor | PostCapitalism_Wealth-Redistribution/predict.py:19-20 | the analysis holds the given frame, model and selected features |
| Predict.FinancialAidAnalysis.CustomizedRanking | PostCapitalism_Wealth-Redistribution/predict.py:39-45 | on success `data` becomes the frame with the rank column set; on an exception it is unchanged and the error is reported |
| Predict.FinancialAidAnalysis.SensitivityAnalysis | PostCapitalism_Wealth-Redistribution/predict.py:67-81 | eleven pairs (-10, -8, …, 10) each with that step's ranks, or the exception every step raises |
| Statistics.Present | Financial-Aid_Post-Capitalism/preprocessing.py:47 | the present values: a value is there exactly when some cell holds it, and none exactly when every cell is missing |
| Statistics.PresentCons | Financial-Aid_Post-Capitalism/preprocessing.py:47 | a leading present cell's value comes first, and a leading gap adds nothing |
| Statistics.PresentOne | Financial-Aid_Post-Capitalism/preprocessing.py:47 | one cell gives its value, or nothing when it is missing |
| Statistics.PresentAppend | Financial-Aid_Post-Capitalism/preprocessing.py:47 | the present values of two runs of cells are those of the first followed by those of the second, in row order |
| Statistics.Min | Financial-Aid_Post-Capitalism/preprocessing.py:47 | the smallest value, which is one of the values |
| Statistics.Max | Financial-Aid_Post-Capitalism/preprocessing.py:47 | the largest value, which is one of the values |
| Statistics.SumBounds | Financial-Aid_Post-Capitalism/preprocessing.py:49 | n values between lo and hi sum to between n·lo and n·hi |
| Statistics.Mean | Financial-Aid_Post-Capitalism/preprocessing.py:49 | the mean lies between the minimum and the maximum |
| Statistics.InsertValue | Financial-Aid_Post-Capitalism/preprocessing.py:47 | inserting a value adds exactly that value |
| Statistics.InsertValueSorted | Financial-Aid_Post-Capitalism/preprocessing.py:47 | inserting into sorted values keeps them sorted |
| Statistics.SortedValues | Financial-Aid_Post-Capitalism/preprocessing.py:47 | the values in non-decreasing order, a permutation of them |
| Statistics.Median | Financial-Aid_Post-Capitalism/preprocessing.py:47 | the median lies between the minimum and the maximum |
| Statistics.SortedUnique | Financial-Aid_Post-Capitalism/preprocessing.py:47 | two sorted orderings of the same values are equal, so the sorted order is the reference the median reads |
| Statistics.MedianIgnoresOrder | Financial-Aid_Post-Capitalism/preprocessing.py:47 | the median depends only on the values, not on the order of the rows |
| Memo.Step | LLaMA_2/IFex-AI/backend/utility.py:19-24 | a hit returns the stored value and keeps the cache; a miss stores the computed value under the key and returns it; no entry is ever replaced |
| Memo.Replay | LLaMA_2/IFex-AI/backend/utility.py:19-24 | a run of memoised calls, one step after another, gives one answer per call |
| Memo.ReplayKeepsEntries | LLaMA_2/IFex-AI/backend/utility.py:19-24 | over any run of calls, every entry already in the cache survives unchanged |
| Memo.ReplayKeys | LLaMA_2/IFex-AI/backend/utility.py:18-23 | after a run the keys are the starting keys plus those of the calls |
| Memo.ReplayAnswersFromFinalCache | LLaMA_2/IFex-AI/backend/utility.py:19-24 | every call of a run returns the value the final cache holds for its key |
| Memo.RepeatedKeySameAnswer | LLaMA_2/IFex-AI/backend/utility.py:19-24 | two calls with the same key return the same value |
| Memo.FirstMissComputes | LLaMA_2/IFex-AI/backend/utility.py:21-24 | the first call of an uncached key returns its own computed value |
| BackendUtility.DetailedErrorHandling | LLaMA_2/IFex-AI/backend/utility.py:8-12 | the message starts with "An error of type ", ends with the details, and has the sentence's length |
| BackendUtility.ParseSentence | LLaMA_2/IFex-AI/backend/utility.py:12 | whatever it reads back reassembles the sentence exactly |
| BackendUtility.ParseSentenceRoundTrip | LLaMA_2/IFex-AI/backend/utility.py:12 | a name without spaces and its details are read back from the sentence |
| BackendUtility.ParseErrorMessage | LLaMA_2/IFex-AI/backend/utility.py:12 | an exception read back from a message formats to that message |
| BackendUtility.ErrorMessageRoundTrip | LLaMA_2/IFex-AI/backend/utility.py:8-12 | for a class name without spaces, formatting and reading back gives the exception again |
| BackendUtility.CacheKey | LLaMA_2/IFex-AI/backend/utility.py:18 | the key is the function name, then the text of the positional arguments, then the text of the keyword arguments |
| BackendUtility.SameNameSameKey | LLaMA_2/IFex-AI/backend/utility.py:18-20 | two different functions with the same name and argument text share an entry: the second call returns the first one's result |
| BackendUtility.ValidateString | LLaMA_2/IFex-AI/backend/utility.py:27-32 | true exactly when every condition holds, so true for no conditions |
| BackendUtility.ValidateConcat | LLaMA_2/IFex-AI/backend/utility.py:32 | validating against two lists at once is validating against each |
| BackendUtility.Utility.constructor | LLaMA_2/IFex-AI/backend/utility.py:4-5 | the cache starts empty |
| BackendUtility.Utility.CacheFunctionOutput | LLaMA_2/IFex-AI/backend/utility.py:14-24 | one memoisation step under the name-and-arguments key; the function runs exactly on a miss |
| Text.IndexOf | LLaMA_2/IFex-AI/backend/llama2chat.py:39 | the first position of a character, or none exactly when it is absent |
| Text.IndexOfAfter | LLaMA_2/IFex-AI/backend/llama2chat.py:39 | in text free of a character followed by text starting with it, the first occurrence is at the join |
| Text.StripPrefix | LLaMA_2/IFex-AI/backend/utility.py:12 | removes a prefix exactly when the text starts with it, and prefix plus rest is the text |
| Text.StripPrefixOfConcat | LLaMA_2/IFex-AI/backend/utility.py:12 | removing a prefix from a text built from it leaves the rest |
| Text.Join | LLaMA_2/IFex-AI/backend/llama2chat.py:39 | `sep.join`: empty for no parts, the part itself for one |
| Text.Split | LLaMA_2/IFex-AI/backend/llama2chat.py:39 | the reference splitter: at least one piece, none containing the separator |
| Text.Led | LLaMA_2/IFex-AI/backend/llama2chat.py:39 | each part with the separator's tail in front |
| Text.SplitJoin | LLaMA_2/IFex-AI/backend/llama2chat.py:39 | splitting a join at the separator's first character gives the parts back, each after the first led by the rest of the separator |
| Text.CommaListSplits | LLaMA_2/IFex-AI/backend/llama2chat.py:39 | a `", "` join of comma-free items splits at its commas into the items, each after the first led by a space |
| Llama2Chat.Discern | LLaMA_2/IFex-AI/backend/llama2chat.py:15-30 | a memoisation step on the query cache; a hit keeps the methodology, and a miss makes the generated text the methodology |
| Llama2Chat.DiscernTwice | LLaMA_2/IFex-AI/backend/llama2chat.py:19-20 | asking the same query twice returns the same text and leaves the state as the first call left it |
| Llama2Chat.Session | LLaMA_2/IFex-AI/backend/llama2chat.py:15-30 | a run of queries returns one text per query |
| Llama2Chat.CacheCalls | LLaMA_2/IFex-AI/backend/llama2chat.py:22-24 | each query paired with the text generation would give it |
| Llama2Chat.SessionIsReplay | LLaMA_2/IFex-AI/backend/llama2chat.py:19-28 | a session's cache and answers are exactly the memoisation replay of its queries |
| Llama2Chat.SessionConsistent | LLaMA_2/IFex-AI/backend/llama2chat.py:19-28 | within a session equal queries get equal texts, and cached entries are never replaced |
| Llama2Chat.CachedSessionKeepsMethodology | LLaMA_2/IFex-AI/backend/llama2chat.py:19-20 | a session of cached queries changes nothing, the methodology included |
| Llama2Chat.MethodologyFollowsLastMiss | LLaMA_2/IFex-AI/backend/llama2chat.py:19-28 | after a, b, a the answers are a's, b's and a's texts, but the methodology is b's |
| Llama2Chat.MethodologyText | LLaMA_2/IFex-AI/backend/llama2chat.py:40 | the methodology as the template prints it: its text, or "None" before any new query |
| Llama2Chat.Shown | LLaMA_2/IFex-AI/backend/llama2chat.py:39 | `map(str, image_features)`: one text per float |
| Llama2Chat.TemplateParts | LLaMA_2/IFex-AI/backend/llama2chat.py:40 | where the start, methodology, middle text, feature list and final period lie in the filled template |
| Llama2Chat.FeatureListRecoverable | LLaMA_2/IFex-AI/backend/llama2chat.py:39 | when `str(float)` never yields a comma, the feature list splits back into the shown features |
| Llama2Chat.LLaMA2Chat.constructor | LLaMA_2/IFex-AI/backend/llama2chat.py:12-13 | the methodology starts as None and the cache empty, as lines 12-13 set them; the source as written raises AttributeError at line 10 before reaching them |
| Llama2Chat.LLaMA2Chat.DiscernUserNeeds | LLaMA_2/IFex-AI/backend/llama2chat.py:15-30 | the object's methodology, cache and result follow `Discern` |
| Llama2Chat.LLaMA2Chat.ConstructDialog | LLaMA_2/IFex-AI/backend/llama2chat.py:32-41 | the error dict exactly when some feature is not a float (an empty list passes); otherwise the prompt is "Please focus on ", the methodology, ". The image features are as follows: ", the features joined by ", " and a period, each part at its own position |

## Left out

- Plots and logging are not modelled: `visualize_missing_values`, every `logging` call, `interactive_visualization`, `generate_report` and the SHAP `feature_importance_analysis`. They produce only output or need a tree model and explainer.
- `datetime_str` is a clock reading used in plot file names and in the output CSV path of the `__main__` block, so it is not modelled.
- Loading is not modelled. This covers `load_data_and_model` (CSV and joblib reading), the file paths of the `FinancialAidAnalysis` constructor, and the tokenizer and model loading of the `LLaMA2Chat` constructor. The frame, the model and the generation chain are given as values. The `LLaMA2Chat` constructor calls `utility.load_llama_model`, which `Utility` does not define. The constructor therefore raises `AttributeError` at `llama2chat.py:10` before setting any field.
- Llama2Chat.LLaMA2Chat.constructor: models the fields that lines 12-13 would set, not the `AttributeError` the constructor raises first at line 10.
- `run_analysis` and the `__main__` blocks only chain modelled or plotting operations, so they are not modelled.
- Floating point is not modelled: numbers are exact reals, and `astype(float)` is the parameter `parse`.
- Preprocessing.MinMaxScale: `MinMaxScaler` is not part of this model; its arithmetic is written out. The data range is taken over the present values, missing cells stay missing, and a constant column goes to the lower bound. Its refusals of a range whose lower bound is not below its upper bound, and of a frame with no rows or no columns are modelled in `NormalizeFeatures`; the exact wording of those messages is not.
- Preprocessing.ImputeMissingValuesWithKnn: the nearest-neighbour computation (`n_neighbors=5`) is the parameter `imputer`. Its refusal of empty input is a failure of that parameter. An all-missing column is dropped by the estimator, and the resulting shape mismatch is the ValueError that `ImputeMissingValuesWithKnn` raises.
- Pandas dtypes other than float and object-holding-strings are not modelled. An object column holding non-strings is not modelled either; `str()` of the first present value is taken to be the value itself.
- Frames.Find: when names are duplicated, the first column of that name is the one read or replaced. Pandas would return several columns.
- Ordering.Argsort: the model sorts with one stable order. numpy's tie order is unspecified; the rank properties are proved for every possible order.
- Predict.FinancialAidAnalysis.SensitivityAnalysis: the default feature `'Unemployment rate'` is the constant `DefaultSensitivityFeature`, which callers pass explicitly. A `predict` that raises is not modelled; `predict` is a total function.
- BackendUtility.Utility.CacheFunctionOutput: a wrapped function that raises is not modelled. `runs` only counts real executions.
- Llama2Chat.LLaMA2Chat.ConstructDialog: `str(float)` is the parameter `show`, so the exact digits of the feature list are not modelled.
