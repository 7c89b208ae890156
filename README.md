# MediGuide disease prediction pipeline, modelled in Dafny

MediGuide is a small Streamlit application. The user selects symptoms. The
application encodes the selection as a 0/1 feature vector, asks a pre-trained
support-vector classifier for a class index, and decodes that index to a disease
name. It then looks the disease up in five reference tables: description,
precautions, medications, diet and workout. This project models that pipeline
(everything in `app.py` apart from presentation, file loading and the
classifier's internals) and proves what each step
guarantees.

Modules, one per pipeline stage:

- `Tables` (tables.dfy): a loaded CSV table as a header and rows of string cells.
  It gives column lookup by name, the equality filter on one column as the
  increasing list of matching row positions, and reading out one column of the
  filtered rows or the row-major flattening of their cells from a given column
  position on.
- `Vocabulary` (vocabulary.dfy): `symptoms_dict`. Every training column except
  `prognosis`, mapped to its position among those columns.
- `Labels` (labels.dfy): `diseases_list`. The sorted distinct `prognosis` labels
  numbered `0..K-1`, and the decoder with its `"Unknown disease"` fallback.
- `Encoder` (encoder.dfy): the encoding loop of `predict_disease`, written as a
  method over an array and proved against the specification function `Encoding`.
- `Recommendations` (recommendations.dfy): `get_recommendations`, five filters,
  each with its own placeholder.
- `Pipeline` (pipeline.dfy): the startup context, `predict_disease` and the
  button handler, which refuses an empty selection.

The classifier is a parameter `classify: seq<int> -> int`. Nothing is assumed
about it except that it is a function, so the same selection always gives the
same prediction.

Two points about what the code does:

- The precaution lookup takes the columns from position 1 on. It
  does not pick "the columns other than `Disease`". These are the same only when
  `Disease` is the first column. `PrecautionsRowMajor` states the positional
  behaviour.
- The code does not drop empty cells when it flattens the precautions. Every
  cell of every matching row is kept, and the model keeps them too.

## Model

| member | source | states |
|---|---|---|
| `Tables.ColumnIndex` | app.py:29-33 | a column named in the code is found at the first header position with that name |
| `Tables.MatchIndices` | app.py:29-33 | the equality filter lists, in increasing order, every row whose key column equals the key and no other row |
| `Tables.EnumerationUnique` | app.py:29-33 | any increasing listing of exactly the matching rows is the one the filter computes, so the filter keeps table order with no row dropped |
| `Tables.MatchIndicesCount` | app.py:29-33 | the filter keeps as many rows as there are matching rows |
| `Tables.Project` | app.py:29-33 | reading out a column of the filtered rows gives one value per row, that row's cell, in order |
| `Tables.FlattenFromLength` | app.py:30 | flattening rows that each give `w` cells yields (rows) * `w` cells, and nothing when no column follows the start position |
| `Tables.RowMajorIndexValue` | app.py:30 | the row-major position of cell `m` of the `j`-th row of `w` cells, counted after `j` whole rows, is `j * w + m` |
| `Tables.FlattenFromAt` | app.py:30 | row-major layout: cell `from + m` of the `j`-th row is at its row-major position |
| `Tables.FlattenFromRowMajor` | app.py:30 | the length and the position of every cell of the flattening, all at once, and the empty flattening when the rows have no cells from the start position on |
| `Vocabulary.SymptomColumns` | app.py:20 | the symptom names are exactly the header names other than `prognosis` |
| `Vocabulary.SymptomColumnsDropLabel` | app.py:20 | with unique column names, dropping `prognosis` removes that one column and keeps the others in order |
| `Vocabulary.Enumerate` | app.py:20 | the comprehension has exactly the column names as keys, and maps each to a position that holds that name |
| `Vocabulary.EnumerateKeepsLast` | app.py:20 | a name that occurs twice keeps its last position, as a dict keeps the last value written |
| `Vocabulary.EnumerateDistinct` | app.py:20 | for names without repetitions, the i-th name maps to i, there are as many entries as names, and the indices are distinct and below the size |
| `Vocabulary.VocabularyFromTraining` | app.py:20 | the training vocabulary has one entry per non-`prognosis` column, with distinct indices in `[0, N)`, and the i-th symptom column maps to i |
| `Labels.Insert` | app.py:25 | adding a label to the sorted distinct labels keeps them strictly sorted and adds exactly that label |
| `Labels.SortedDistinct` | app.py:24-25 | the classes are strictly sorted and hold exactly the labels that occur in the training column |
| `Labels.StrictlySortedUnique` | app.py:24-25 | two strictly sorted lists with the same elements are equal, so the classes are the sorted distinct labels however they are computed |
| `Labels.LabelTable` | app.py:26 | numbering strictly sorted classes gives a one-to-one table: two different keys never hold the same disease name, so each name has exactly one class index |
| `Labels.LabelTableOfTraining` | app.py:24-26 | the training label table has keys `0..K-1`, its names are in strictly increasing order, and it holds every training label and nothing else |
| `Labels.DecodeTraining` | app.py:51 | decoding i gives the i-th sorted label for i in `0..K-1`, and `"Unknown disease"` otherwise |
| `Labels.DecodeLabelOrSentinel` | app.py:51 | the decoder answers a training label or the sentinel; when no label is the sentinel text, it answers the sentinel exactly for indices outside `0..K-1` |
| `Encoder.Encoding` | app.py:44-48 | the vector has length `len(symptoms_dict)`, every entry is 0 or 1, and entry i is 1 iff some selected name is in the vocabulary with index i |
| `Encoder.Encode` | app.py:44-48 | the zero-then-set loop computes exactly `Encoding` of the selection |
| `Encoder.OnesCount` | app.py:44-48 | the number of ones equals the number of distinct recognised selected names |
| `Encoder.EmptySelection` | app.py:44-48 | an empty selection gives the all-zero vector of length `len(symptoms_dict)` |
| `Encoder.EncodingDependsOnRecognised` | app.py:46-48 | two selections with the same recognised names get the same vector, whatever their unknown names, repetitions and order |
| `Encoder.UnknownNameIgnored` | app.py:47 | adding a name the vocabulary does not know changes nothing |
| `Encoder.IndicatorCount` | app.py:44-48 | a 0/1 vector with ones at a set of positions has as many ones as the set has positions inside the vector |
| `Recommendations.DescriptionIsFirstMatch` | app.py:29-36 | the description is the `Description` cell of the first row whose `Disease` is the disease, or `"No description available"` when there is no such row |
| `Recommendations.ListFieldInTableOrder` | app.py:31-40 | medications, diet and workout: one value per matching row, that row's cell, in table order with none dropped; `[placeholder]` when no row matches; never empty |
| `Recommendations.PrecautionsRowMajor` | app.py:30-37 | precautions: every cell from column 1 on of every matching row, row-major, (matching rows) * (columns - 1) entries with no cell filtered; `["No precautions available"]` when no row matches or no column follows the first |
| `Recommendations.PrecautionsNoRow` | app.py:37 | precautions are never empty and are the placeholder list for a disease with no row |
| `Recommendations.ListFieldNoRow` | app.py:38-40 | a list field is never empty and is its placeholder list for a disease with no row |
| `Recommendations.Placeholders` | app.py:35-41 | in the returned bundle the four list fields are never empty, and each field is its own fixed placeholder when its table has no row for the disease |
| `Pipeline.Load` | app.py:20-26 | the startup context has a one-to-one vocabulary of `header - 1` symptom names, a label table with keys `0..K-1` holding the sorted distinct labels, and the reference tables unchanged |
| `Pipeline.PredictDisease` | app.py:43-51 | the answer is the decoding of the classifier's index for the encoded selection, so it is a known disease name or `"Unknown disease"` |
| `Pipeline.Submit` | app.py:108-113 | an empty selection gives the warning and no prediction; any other selection gives the prediction and the recommendations for it |
| `Pipeline.PredictionFromTraining` | app.py:43-51 | with the startup tables, the classifier gets a vector of one entry per symptom column, and the answer is a training label or the sentinel |
| `Pipeline.SameRecognisedSameOutcome` | app.py:43-51 | selections with the same recognised names get the same prediction and the same recommendations, so asking twice gives the same result |

## Left out

- Streamlit presentation (app.py:53-153 apart from the guard at lines 108-113): page setup, HTML and CSS, columns, how results are shown, the footer. None of it affects what is computed.
- File loading (app.py:7-17): reading the model file and the CSV files. The loaded tables are parameters. `WellFormed` states what the CSV reader hands over: unique column names (it renames duplicates) and every row as wide as the header.
- The support-vector classifier (app.py:50) is foreign code. It is the parameter `classify`, a total function from the feature vector to a class index.
- A column that the code names but the table lacks makes pandas raise an error, and the application does not handle it. The model requires those columns instead: `Ready`, `Valid` and `LabelColumn in training.header`.
- Cells are strings. Missing-value (NaN) cells, numpy dtypes and the float type of `np.zeros` are not modelled, and the vector holds the integers 0 and 1.
- The label encoder's own algorithm is not modelled. Its `classes_` is computed as the strictly sorted distinct labels by insertion, with character-code string order. `StrictlySortedUnique` shows that the result does not depend on that choice.
- The text of the empty-selection warning is kept with its emoji. Showing it (`st.warning`) is presentation.
