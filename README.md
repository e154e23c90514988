# Restaurant inventory demand forecasting: the prediction handler in Dafny

The repository's desktop tool asks for a day of the week, the weather and a
holiday flag. It feeds them to a trained regressor and fills a table with one
row per food item, giving the item's current stock, the predicted demand and
a recommendation (Restock, Available or Adequate). This project models the
decision logic of that "Predict" handler (`predict_demand` in
`demand_forecasting.py`) and proves its properties:

- **Input validation** (`input_validation.dfy`, module `InputValidation`).
  The three fields are stripped with Python's `str.strip` semantics. The
  input is accepted only if the day and the weather are non-empty and the
  holiday is a non-empty string of digits. The holiday is then converted to
  an integer, which fails (and is reported as an error) beyond the
  interpreter's 4300-digit conversion limit.
- **Feature alignment** (`feature_alignment.dfy`, module `FeatureAlignment`).
  The one-hot encoded input row is a sequence of named integer columns. The
  loop adds every feature the row lacks with value 0, and the projection
  then keeps exactly the saved feature list, in its order. The regressor
  therefore sees the holiday under `Holiday`, 1 under the day's and the
  weather's indicator features, and 0 under every other listed feature.
- **Status rule** (`stock_status.dfy`, module `StockStatus`). An item is
  Restock exactly when the demand exceeds its stock. It is Available exactly
  when the stock is at least demand + 5. Otherwise it is Adequate. The same
  file holds the demonstration `current_stock` list and the table contents a
  prediction must produce.
- **Table** (`prediction_table.dfy`, class `PredictionTable.Table`). The
  Treeview is reduced to its rows in display order, each under an item id,
  with `get_children`, `delete` and `insert`.
- **Handler** (`demand_forecasting.dfy`, module `DemandForecasting`).
  `RefreshTable` runs the clear loop and then the fill loop. It is proved to
  leave exactly one row per stock entry, in order, with no row from before.
  `PredictDemand` chains all the steps. It is proved to leave the table
  untouched on invalid input and on a failed holiday conversion.

The regressor is a parameter: a total function from the aligned row to the
integer demand. The saved feature-name list is also a parameter, so the
alignment is proved for any list.

## Model

| member | source | states |
|---|---|---|
| `InputValidation.LeadingSpaces` | demand_forecasting.py:115-117 | the count it returns covers only whitespace characters, and the character after them, if any, is not whitespace |
| `InputValidation.TrailingSpaces` | demand_forecasting.py:115-117 | the count it returns covers only trailing whitespace characters, and the character before them, if any, is not whitespace |
| `InputValidation.Strip` | demand_forecasting.py:115-117 | a stripped field is empty or begins and ends with a non-whitespace character |
| `InputValidation.StripIsSlice` | demand_forecasting.py:115-117 | the stripped text is a contiguous slice of the field, and everything cut off on either side is whitespace |
| `InputValidation.StripEmptyIff` | demand_forecasting.py:115-119 | a stripped field is empty exactly when the raw field holds only whitespace |
| `InputValidation.StripIdempotent` | demand_forecasting.py:115-117 | stripping an already stripped field changes nothing |
| `InputValidation.IsDigitString` | demand_forecasting.py:119 | `holiday.isdigit()` is false for the empty string, so an empty holiday is rejected |
| `InputValidation.DigitStringIsStripped` | demand_forecasting.py:117-119 | a digit string has no whitespace at either end, so stripping leaves it unchanged |
| `InputValidation.DecimalValue` | demand_forecasting.py:123 | `int()` of an n-digit string is a non-negative integer below 10^n |
| `InputValidation.DecimalDigits` | demand_forecasting.py:123 | the canonical decimal form is a non-empty digit string without a leading zero |
| `InputValidation.DecimalRoundTrip` | demand_forecasting.py:123 | converting the canonical decimal form of n back with `int()` gives n |
| `InputValidation.LeadingZero` | demand_forecasting.py:123 | a leading zero does not change the holiday's integer value |
| `InputValidation.ParseInt` | demand_forecasting.py:123 | `int()` of a digit string succeeds exactly when it has at most 4300 digits, and then yields the string's decimal value; otherwise it is the conversion error |
| `InputValidation.DecimalCanonical` | demand_forecasting.py:123 | a digit string without superfluous leading zeros is the canonical form of its value |
| `InputValidation.Validate` | demand_forecasting.py:115-123 | the input error exactly when a stripped day or weather is empty or the stripped holiday is not all digits; the conversion error exactly when the field check passes but the holiday has more than 4300 digits (the ValueError the catch-all dialog reports); otherwise the query holds the stripped texts and the holiday's integer value |
| `InputValidation.AcceptedIff` | demand_forecasting.py:115-121 | in terms of the raw texts: the field check passes exactly when day and weather each contain a non-whitespace character and the holiday is a run of digits with only whitespace around it |
| `InputValidation.PaddedDigitsIff` | demand_forecasting.py:117-119 | the stripped holiday is a digit string exactly when the raw holiday is digits padded with whitespace |
| `FeatureAlignment.HasColumn` | demand_forecasting.py:137 | `col in input_data.columns` holds exactly when the frame has a column of that name with some value |
| `FeatureAlignment.ValueOf` | demand_forecasting.py:137-140 | a name's value is found exactly when the frame has a column of that name, and then it is that column's value |
| `FeatureAlignment.ValueOfAppend` | demand_forecasting.py:136-138 | columns appended after the encoded ones never hide an encoded column's value |
| `FeatureAlignment.ValueOfMember` | demand_forecasting.py:140 | in a frame with distinct names, each column is the one its name finds |
| `FeatureAlignment.Encode` | demand_forecasting.py:126-133 | the encoded row has distinct names, holds the holiday under `Holiday` and 1 under the day's and the weather's indicator columns, and has no other column |
| `FeatureAlignment.AddMissingColumns` | demand_forecasting.py:136-138 | the loop keeps every encoded column unchanged in place and only appends; each appended column is a listed feature the encoding lacked and has value 0; afterwards every listed feature is present and names stay distinct |
| `FeatureAlignment.Select` | demand_forecasting.py:140 | the projection succeeds exactly when every listed name is a column; it yields the listed names in order, each column taken from the frame |
| `FeatureAlignment.Reindexed` | demand_forecasting.py:136-140 | the aligned row's columns are exactly the feature list in order; a feature the encoding had keeps its encoded column, a missing one is 0; encoded columns not listed are dropped |
| `FeatureAlignment.Align` | demand_forecasting.py:136-140 | the add-missing loop followed by the projection yields exactly the reindexed row |
| `FeatureAlignment.AlignedQuery` | demand_forecasting.py:126-140 | for any feature list, the row given to the regressor holds the holiday under `Holiday`, 1 under the day's and weather's indicators and 0 elsewhere |
| `StockStatus.LabelInjective` | demand_forecasting.py:152-156 | the three status texts the handler writes are distinct, so a `Status` value stands for the table's Status text |
| `StockStatus.StatusOf` | demand_forecasting.py:152-156 | Restock exactly when demand > stock; Available exactly when stock >= demand + 5; Adequate exactly when demand <= stock < demand + 5 |
| `StockStatus.StatusMonotone` | demand_forecasting.py:152-156 | more stock or less demand never gives a worse status |
| `StockStatus.StatusShiftInvariant` | demand_forecasting.py:152-156 | the status depends only on the stock minus the demand |
| `StockStatus.CurrentStockIsDictionary` | demand_forecasting.py:15-21 | the demonstration stock list names each item once |
| `StockStatus.RowFor` | demand_forecasting.py:158 | the inserted values are the entry's item, its stock, the demand, and a status that is Restock exactly when the stock is below the demand and Available exactly when it is at least demand + 5 |
| `StockStatus.Recommendations` | demand_forecasting.py:151-158 | one row per stock entry, in the same order, the k-th row being that entry's row against the demand |
| `StockStatus.RecommendationRows` | demand_forecasting.py:151-158 | every row carries the single predicted demand and its own item's name and stock; its status is Restock exactly when that stock is below the demand and Available exactly when it is at least demand + 5 |
| `StockStatus.RecommendationsDistinct` | demand_forecasting.py:151-158 | with a dictionary as the stock list, each item appears in exactly one row |
| `StockStatus.DemandFifteen` | demand_forecasting.py:15-21 | against the demonstration stock a demand of 15 gives Available, Available, Restock, Adequate, Restock |
| `PredictionTable.Table.constructor` | demand_forecasting.py:104 | the table starts with no rows |
| `PredictionTable.Table.GetChildren` | demand_forecasting.py:147 | returns exactly the rows' ids in display order, which the table invariant keeps distinct and one per row |
| `PredictionTable.Table.Delete` | demand_forecasting.py:148 | removes exactly the row with the given id and keeps the others in order |
| `PredictionTable.Table.Insert` | demand_forecasting.py:158 | appends the row at the end under an id no row had before |
| `DemandForecasting.RefreshTable` | demand_forecasting.py:146-158 | afterwards the table holds exactly one row per stock entry, in order, each with the demand and the rule's status; no row from before remains |
| `DemandForecasting.PredictDemand` | demand_forecasting.py:112-158 | invalid input or a failed holiday conversion gives that error as the outcome and leaves the table unchanged; valid input predicts from the aligned encoding and fills the table with the recommendations for the demonstration stock, every row under a new id, so no row from an earlier prediction remains |

## Left out

- The window, canvas, scrollbar, labels, entry widgets, button and Treeview configuration (demand_forecasting.py:30-109, 190) are UI wiring. The table is modelled by its rows and the three operations the handler calls.
- The background image and the two matplotlib charts (demand_forecasting.py:36-40, 160-184) are rendering. So is the `historical_demand` mapping (22-28), which only feeds the line chart.
- Loading the pickled model and feature names (demand_forecasting.py:10-12) is file I/O. Both are parameters of `PredictDemand`.
- `model.predict` and the `int()` truncation of its float output (demand_forecasting.py:143-144) are a foreign regressor and floating point. The pair is the opaque `model` parameter returning an integer.
- `pd.get_dummies` internals (demand_forecasting.py:133): `Encode` gives only its result for the one-row frame. Indicator columns hold pandas' boolean `True`, modelled as 1.
- The catch-all `except` dialog (demand_forecasting.py:186-187) is modelled only for the holiday conversion: `int()` raising a ValueError beyond the 4300-digit limit gives the `ConversionError` outcome. The limit (`sys.int_info.default_max_str_digits`) is the default since CPython 3.11 and the 3.7.14, 3.8.14, 3.9.14 and 3.10.7 security releases. Earlier interpreters convert any length, and so does one run with the limit set to 0. A limit configured to another value moves the threshold, which the model does not cover.
- `InputValidation.DecimalValue`: is the value of a digit string of any length; the 4300-digit limit of `int()` is applied by `ParseInt`, which `Validate` calls.
- `DemandForecasting.PredictDemand`: the `model` parameter is a total function, so an exception raised by `model.predict`, by `pd.get_dummies` or by the column reindexing (demand_forecasting.py:133-143), which the source reports in the generic error dialog with the table untouched, is not covered.
- `InputValidation.IsDigitString`: Python's `str.isdigit` also accepts non-ASCII digits, and the model accepts only '0'..'9'. Two cases differ. A non-ASCII decimal digit (Arabic-Indic '٣', fullwidth '１') passes the check and `int()` converts it, so the source predicts and fills the table; the model reports the input error and leaves the table unchanged. A digit that is not decimal (a superscript such as '²') passes the check but makes `int()` raise; the source shows the generic error dialog, the model the input error, and the table is left untouched in both.
- `FeatureAlignment.AddMissingColumns`: does not state the order of the appended columns. The projection that follows discards that order.
- `FeatureAlignment.Select` requires distinct column names. With duplicate names pandas returns every matching column, and the model does not cover that. The encoded frame never has duplicates (`Encode`).
- `PredictionTable.Table.Delete` requires the id to be present; Tk raises an error otherwise. The handler only deletes ids it has just listed.
- Treeview item ids are strings (`I001`, ...); the model numbers them with naturals.
- train_model.py is not part of this model: CSV reading, the pandas encoding, the train/test split, the regressor's training and the pickle writes are all library calls.
