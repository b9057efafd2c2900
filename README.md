# Stock opening-price predictor: verified model of its own logic

The system fetches a stock's daily price history, fits a polynomial
regression from one day's Open, Close, High, Low and Volume to the next
day's Open, predicts tomorrow's Open from the latest day, and shows a
"Buy" / "Do Not Buy" recommendation as a coloured HTML box. This project
models, in Dafny, the parts of that flow that the repository itself
implements:

- `recommend.dfy` (module `Recommend`, from `recommend.py`): the
  recommendation rule. A strict comparison of the predicted next-day Open
  with the latest price picks one of two label/style pairs, rendered as
  `<div style="{style}">{label}</div>`. Prices are exact `real`s.
- `html.dfy` (module `Html`): that `div` template and `ParseDiv`, which reads
  the style and the text back from a snippet; the round trip
  `ParseDiv(Div(style, body)) == Some((style, body))`, which holds for every
  body free of double quotes (both labels are), is what lets the
  contracts of the rule speak about the returned string itself.
- `model.dfy` (module `Model`, from `model.py`):
  - the price table: a set of column labels and a sequence of rows, each row
    a map from column label to `Option<real>` (`None` is a missing cell);
  - `TrainStockPricePredictor`: the required-column check, the new
    `Future Open` column holding each row's next Open (`shift(-1)`), the
    removal of every row with a missing cell (`dropna`), the projection of
    the five features and the target, and the fit — written as `model.py`'s
    sequence of steps, each rebinding the table;
  - `TrainingExamples`, an independent statement of which examples that
    produces, defined on the fetched table (row *i* survives when it has a
    next row, none of its own cells is missing and the next row's Open is
    present; its target is that next row's Open), and the proof that the
    steps compute it (`PipelineIsReference`);
  - `LatestFeatures` / `PredictFutureOpeningPrice`: the five features of the
    last row, handed to the fitted model;
  - the file's second copy of the recommendation rule, proved equal to the
    first.
- `wrappers.dfy` (module `Wrappers`): `Option` and `Result`.

The fitted regression is not modelled: training takes the fitting
procedure as a parameter `fit: seq<Example> -> Regressor`, and a fitted model
is any function `seq<real> -> real`. Training returns `fit` applied to
exactly the training examples, so whatever the fitting does, it sees those
examples.

Three facts about the code shape the model. Training raises no
"insufficient data" error of its own: a table of fewer than two rows gives
zero examples, and any failure is left to the regression library. There is
no evaluation step: no mean squared error and no R², although
`train_test_split` and `mean_squared_error` are imported. The
recommendation is returned as an HTML string, not as a decision value. A
missing required column is a `ValueError` with a fixed message.

## Model

| member | source | states |
|---|---|---|
| `Html.Div` | recommend.py:10 | the snippet is the opening tag, the style, `">`, the body and `</div>`: its length is theirs summed, and the style and the body sit at their places in it |
| `Html.ParseDiv` | recommend.py:10 | whatever it reads back from a snippet renders to that very snippet, with a text free of double quotes |
| `Html.ParseDivOfDiv` | recommend.py:10 | rendering `<div style="{style}">{body}</div>` and reading it back returns the same style and body, for any style and every quote-free body |
| `Recommend.LabelsQuoteFree` | recommend.py:4-7 | neither label contains a double quote, so each reads back whole as the text of the `div` |
| `Recommend.MakeRecommendation` | recommend.py:2-10 | the result is a `div` whose style and text read back as the green Buy pair when the prediction is strictly above the latest price and as the red Do Not Buy pair otherwise |
| `Recommend.LabelAndStyle` | recommend.py:3-8 | the text is "Recommendation: Buy" exactly when prediction > latest price and "Recommendation: Do Not Buy" exactly when not; green style iff Buy, red style iff Do Not Buy |
| `Recommend.TwoOutcomes` | recommend.py:3-10 | the rule is total, returns one of exactly two snippets, the two differ, and it is the Buy snippet iff prediction > latest price |
| `Recommend.TieIsDoNotBuy` | recommend.py:3-8 | equal prices give Do Not Buy (the comparison is strict) |
| `Recommend.Monotone` | recommend.py:3 | raising the prediction never turns Buy into Do Not Buy; raising the latest price never turns Do Not Buy into Buy |
| `Model.HasRequiredColumns` | model.py:18-20 | the column check fails iff at least one of Open, Close, High, Low, Volume is not a column |
| `Model.FeaturesOf` | model.py:30 | a feature vector has five components, the row's Open, Close, High, Low and Volume in that order |
| `Model.NextOpen` | model.py:24 | the cell `shift(-1)` gives row i is present iff there is a next row whose Open is present, and it is then that Open |
| `Model.WithFutureOpen` | model.py:24 | adds exactly the `Future Open` column, keeps the row count; each row's new cell is the next row's Open, the last row's is missing, and every other cell is unchanged |
| `Model.KeptIndicesComplete` | model.py:27 | each index `dropna` keeps is that of a complete row |
| `Model.KeptIndicesIncreasing` | model.py:27 | the indices `dropna` keeps are strictly increasing |
| `Model.IncreasingAfterZero` | model.py:27 | putting at most a 0 before the successors of increasing indices keeps them increasing (the step of the previous row) |
| `Model.KeptIndicesCover` | model.py:27 | the index of every complete row is kept |
| `Model.DropMissing` | model.py:27 | `dropna` on the rows: as many rows as kept indices, the k-th kept row being the input row at the k-th kept index; each is complete and none is added |
| `Model.DropMissingIsFilter` | model.py:27 | `dropna` is the order-preserving filter of the complete rows: the kept rows are the rows at a strictly increasing list of indices, and an index is in it iff its row is complete |
| `Model.DropMissingKeepsComplete` | model.py:27 | `dropna` keeps every complete row |
| `Model.DropNA` | model.py:27 | `dropna()` keeps the columns and well-formedness, and its k-th row is the input's row at the k-th kept index, so it holds exactly the complete rows in their order |
| `Model.Project` | model.py:30-31 | X and y hold one example per remaining row, in order: example i is row i's five features and its `Future Open` |
| `Model.TrainStockPricePredictor` | model.py:12-39 | fails with the missing-columns `ValueError` iff a required column is absent, whatever the rows hold; otherwise fits exactly `TrainingExamples` of the fetched table |
| `Model.SurvivingIndicesSpec` | model.py:24-27 | the rows that yield examples are listed in increasing order, never include the last row, and are exactly the surviving rows |
| `Model.ExamplesAtIndices` | model.py:24-31 | the k-th example is the example of the k-th surviving row |
| `Model.TrainingExamplesSpec` | model.py:24-31 | each example has its row's features and, as target, the Open of the row right after it in the fetched table; rows used keep table order; a row is used iff it survives; at most n - 1 examples from n rows |
| `Model.CompleteTableSize` | model.py:24-27 | a table of n complete rows yields exactly n - 1 examples (none when empty) |
| `Model.ShortTableNoExamples` | model.py:24-27 | a table of at most one row yields no example |
| `Model.ShiftedRowComplete` | model.py:24-27 | after the shift a row has no missing cell iff it survives (own cells present, next Open present), and then its projection is that row's example |
| `Model.PipelineFrom` | model.py:24-31 | from any position on, shift-then-`dropna`-then-project gives the surviving rows' examples |
| `Model.PipelineIsReference` | model.py:24-31 | shift, `dropna` and projection, in that order, compute exactly `TrainingExamples` |
| `Model.ThreeDayScenario` | model.py:24-31 | three complete days with Opens 10, 12, 11 give exactly two examples, with targets 12 and 11 |
| `Model.ShiftBeforeDropNA` | model.py:24-27 | when the middle day lacks its Close, the first day's target is still the middle day's Open (12), not the next surviving day's (11) |
| `Model.LatestFeatures` | model.py:43 | succeeds iff the feature columns exist, the table is non-empty and the last row's features are present; otherwise the matching error, in that order; on success the five features of the last row |
| `Model.PredictFutureOpeningPrice` | model.py:41-51 | fails exactly when the latest features cannot be extracted; otherwise it is the model applied to them |
| `Model.PredictionUsesLastRow` | model.py:43 | whatever the earlier rows hold, the prediction is that of the last row alone |
| `Model.SameFeaturesForTrainingAndPrediction` | model.py:30-43 | the vector a prediction uses is the one the last row would carry as a training example |
| `Model.MakeRecommendation` | model.py:54-62 | the copy of the rule returns a `div` reading back as the green Buy pair when the prediction is strictly above the current closing price and as the red Do Not Buy pair otherwise |
| `Model.RecommendationCopiesAgree` | model.py:54-62 | the copy of the rule in `model.py` returns the same string as the one in `recommend.py` for every pair of prices |

## Left out

- Market-data fetches (model.py:14-15, 77-80): network I/O through an external provider; the table is a parameter instead.
- The `symbol`, `degree` and `period` parameters (model.py:12, 41): they only feed the fetch and the regression library.
- The polynomial expansion and least-squares fit (model.py:34-37, 49): a foreign floating-point library; it is the parameter `fit` and the fitted model is an arbitrary function. Its own rejection of an empty training set is not modelled.
- `Model.LatestFeatures`: the refusal of a missing last-row feature stands for the regression library's input validation, which happens inside `model.predict`, not in the repository's code.
- The Streamlit page, the chart and the `round(..., 2)` display formatting (model.py:66-115, including `main`): presentation only.
- Floating point and NaN: prices are exact reals and a missing cell is `None`; Python's rule that a NaN comparison is false (so a NaN prediction gives Do Not Buy) has no counterpart.
- The date index of the table: rows are modelled in their order only.
- The in-place addition of the `Future Open` column (model.py:24): modelled as rebinding a value, which is the same since the freshly fetched table is not shared.
- Evaluation (mean squared error, R²): the code has none.
- Model.TrainStockPricePredictor: fails only on a missing required column; a table with all five columns whose rows give no example (empty, one row, or no complete pair of rows) returns `Success` in the model, while the regression library's fit at model.py:37 raises a `ValueError` on an empty training set, which is not modelled.
