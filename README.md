# BGL log classification: the text pipeline in Dafny

This project models the deterministic text pipeline of a system that
classifies BGL (Blue Gene/L) log lines. The pipeline sits in front of the
statistical classifier:

- **Parsing** (`parse_bgl_log`, src/etl/etl_pipeline.py). Each raw line is
  stripped and blank lines are skipped. The rest is split once, at its first
  whitespace run, into an `alert` token and a `log_message`. The records
  become a data frame.
- **Normalising** (`clean_text`, src/utils/preprocess.py). The text is
  lower-cased, digit runs are deleted, characters that are neither word
  characters nor whitespace are deleted, and whitespace runs are collapsed
  to one space and stripped.
- **Tokenizing** (`tokenize_text`). The normalised text is split on
  whitespace and stop words are dropped.
- **`preprocess_bgl_logs`** checks that the frame has a `log_message`
  column, then adds the `cleaned_text` and `tokens` columns in place.
- **`prepare_data`** (src/model/train_model.py) adds a binary `label` column
  in place: 0 when the stripped alert is `-`, else 1. It then returns the
  training texts, which are the `cleaned_text` column if there is one and
  the lower-cased `log_message` column otherwise, together with the labels.
- **The `/predict` handler** (src/api/app.py) has its own copy of
  `clean_text`. It refuses an empty message with status 400. Otherwise it
  cleans the message, vectorises it as a batch of one, and returns the
  first predicted label.

Modules, one per file:

- `Wrappers` (wrappers.dfy): `Option`, `Result` and `Outcome`.
- `PyText` (pytext.dfy): the Python string operations the pipeline uses, over
  ASCII:
  - `str.lower`;
  - the deletions `re.sub(r'\d+', '', ·)` and `re.sub(r'[^\w\s]', '', ·)`;
  - `re.sub(r'\s+', ' ', ·)`;
  - `str.strip`, `str.split()` and `str.split(maxsplit=1)`.

  The module also defines `JoinSpace`, which joins words with single spaces.
  No source file calls it. It is an independent reference definition, used to
  characterise collapsing whitespace and stripping
  (`CollapseStripIsJoinSplit`, `Preprocess.CleanTextJoinsWords`).
- `Table` (table.dfy): the data frame, a class with a set of columns and a
  sequence of rows. Each row has an optional cell per column and holds a
  value exactly for the frame's columns.
- `Preprocess` (preprocess.dfy): `clean_text`, `tokenize_text` and
  `preprocess_bgl_logs`.
- `Etl` (etl.dfy): the line loop of `parse_bgl_log` and the frame it builds.
- `Train` (train.dfy): `prepare_data`.
- `Api` (api.dfy): the endpoint's `clean_text` and `predict_log`.

The code that updates state in place is modelled imperatively:

- the record loop, with its `continue` on blank lines;
- the column assignments of `preprocess_bgl_logs` and `prepare_data`.

Each such method builds the new column row by row in a loop, then assigns
it to the frame. Its postcondition ties the result to the specification
functions (`ParseLine`, `CleanText`, `TokenizeText`, `AlertLabel`). The
string operations are pure functions, and their properties are lemmas.

Each Python function of the core has a Dafny function that models it:

- the loop body of `parse_bgl_log` is `Etl.ParseLine`, and the loop over
  the lines is `Etl.ParseLines`;
- `clean_text` of src/utils/preprocess.py is `Preprocess.CleanText`;
- `tokenize_text` is `Preprocess.TokenizeText`;
- the label lambda of `prepare_data` is `Train.AlertLabel`;
- `clean_text` of src/api/app.py is `Api.CleanText`;
- the vectorise-and-predict step of `predict_log` is `Api.Classify`, and the
  whole handler is `Api.PredictLog`.

Modelling assumptions:

- **Character classes are ASCII.**
  - Whitespace is what Python's `str.isspace` accepts in ASCII: space,
    characters 9 to 13, and 28 to 31. The same set serves `strip`, `split`
    and `\s`, as it does in CPython.
  - `\d` is `0`–`9`; `\w` is the ASCII letters, the digits and `_`.
  - `lower` maps `A`–`Z` only.
  - Python's Unicode behaviour is not reproduced: a non-ASCII character is
    neither a word character, a digit nor whitespace here. For example,
    Python would keep `é` as a word character.
- **Lines are strings.** The file is a sequence of lines; a trailing
  newline on a line is whitespace and is stripped like any other.
- **The frame's columns** are the five the pipeline names. A row has a
  value exactly in the columns the frame holds.
- **The artifacts are opaque.** The fitted vectorizer and classifier are a
  pair of functions, `transform` from a batch of texts to features and
  `predict` from features to a sequence of labels in {0, 1}. They are fixed
  for the life of the endpoint.
- **The stop-word set** is an arbitrary finite set of strings, passed as a
  parameter.

Error paths and orderings, as the code has them:

- The missing-column error of `preprocess_bgl_logs` is the code's
  `ValueError`, with its message.
- An empty message is refused with HTTP 400 and the detail "Log message is
  required.".
- The endpoint keeps no state about its artifacts. They are loaded when the
  module is imported (src/api/app.py:17-21). A failed load raises
  `RuntimeError` during the import, so no application exists to serve a
  request. The handler therefore always has both artifacts.
- `prepare_data` raises `KeyError('log_message')` only after it has added
  the `label` column. The model keeps that ordering.
- A log with no non-blank line gives a frame with no columns at all, as
  `pd.DataFrame([])` does.

## Model

| member | source | states |
|---|---|---|
| PyText.LowerChar | src/utils/preprocess.py:28 | the result is never upper-case; an upper-case letter becomes the lower-case letter at the same place in the alphabet ('A' to 'a', ..., 'Z' to 'z'), and every other character is unchanged |
| PyText.Lower | src/utils/preprocess.py:28 | lower-casing keeps the length, maps each character on its own by that letter rule, and leaves no upper-case letter |
| PyText.LowerConcat | src/utils/preprocess.py:28 | lower-casing a concatenation lower-cases each part |
| PyText.LowerNoUpper | src/utils/preprocess.py:28 | text without upper-case letters is left unchanged by lower-casing |
| PyText.KeepChars | src/utils/preprocess.py:29-30 | every character a regex deletion keeps satisfies the kept class and comes from the input |
| PyText.KeepConcat | src/utils/preprocess.py:29-30 | a deletion of a concatenation is the concatenation of the deletions |
| PyText.KeepAll | src/utils/preprocess.py:29-30 | a deletion removes nothing from text with no character of the deleted class |
| PyText.KeepNone | src/utils/preprocess.py:29 | a deletion removes all of a run made only of the deleted class, such as a digit run |
| PyText.TrimStartShape | src/etl/etl_pipeline.py:19 | stripping the front removes a whitespace prefix and leaves a suffix that does not start with whitespace |
| PyText.TrimEndShape | src/etl/etl_pipeline.py:19 | stripping the end removes a whitespace suffix and leaves a prefix that does not end with whitespace |
| PyText.StripEnds | src/etl/etl_pipeline.py:19 | the result of `strip` neither starts nor ends with whitespace |
| PyText.StripSlice | src/etl/etl_pipeline.py:19 | the result of `strip` is a slice of the input with only whitespace on either side of it |
| PyText.TrimStartSpaces | src/etl/etl_pipeline.py:19 | stripping the front of whitespace followed by text that starts with a non-space gives that text |
| PyText.TrimEndSpaces | src/etl/etl_pipeline.py:19 | stripping the end of text that ends with a non-space followed by whitespace gives that text |
| PyText.StripPadded | src/etl/etl_pipeline.py:19 | `strip` of a core padded with whitespace on both sides gives the core back |
| PyText.StripEmpty | src/etl/etl_pipeline.py:19-20 | `strip` gives the empty string exactly when the input is all whitespace |
| PyText.StripTrimmed | src/utils/preprocess.py:31 | `strip` leaves text with no whitespace at its ends unchanged |
| PyText.TakeWordShape | src/etl/etl_pipeline.py:23 | the first word is a whitespace-free prefix that ends where whitespace starts or where the text ends |
| PyText.SplitWords | src/utils/preprocess.py:38 | every word of `split()` is non-empty and holds no whitespace |
| PyText.SplitOnce | src/etl/etl_pipeline.py:23 | `split(maxsplit=1)` gives at most two parts, and at least one when the text starts with a non-space |
| PyText.SplitOnceTrimmed | src/etl/etl_pipeline.py:23-28 | on a stripped non-empty line, `split(maxsplit=1)` gives the first word; a second part exists exactly when a non-empty whitespace run follows the word, and then the line is word + run + rest, with the rest stripped |
| PyText.CollapseSpaces | src/utils/preprocess.py:31 | collapsing gives the empty string only for the empty input, and a run at the front becomes one space |
| PyText.CollapseSpacesShape | src/utils/preprocess.py:31 | after collapsing, every whitespace character is a single space with no whitespace beside it, and every other character comes from the input |
| PyText.CollapseGap | src/utils/preprocess.py:31 | a non-empty whitespace run in front of a word becomes one space and the rest is collapsed as before |
| PyText.CollapseSingleSpaced | src/utils/preprocess.py:31 | collapsing leaves already single-spaced text unchanged |
| PyText.SplitJoinSpace | src/utils/preprocess.py:38 | splitting words joined by single spaces gives the words back |
| PyText.JoinSpaceSplit | src/utils/preprocess.py:31-38 | splitting single-spaced, stripped text and joining with single spaces gives the text back |
| PyText.SplitCollapse | src/utils/preprocess.py:31-38 | collapsing whitespace does not change the words of a text |
| PyText.SplitStrip | src/utils/preprocess.py:31-38 | stripping does not change the words of a text |
| PyText.SplitConcat | src/utils/preprocess.py:38 | the words of a concatenation whose parts meet at whitespace are the words of the parts |
| PyText.CollapseStripIsJoinSplit | src/utils/preprocess.py:31 | collapsing whitespace runs and stripping equals splitting on whitespace and joining with single spaces |
| Preprocess.DeletionsLeaveCleanOrSpace | src/utils/preprocess.py:28-30 | after lower-casing and both deletions, every character is a lower-case letter, an underscore or whitespace |
| Preprocess.CleanTextIsClean | src/utils/preprocess.py:28-31 | the result of clean_text is lower-case letters, underscores and single spaces, with no space at either end and no two spaces in a row |
| Preprocess.CleanTextCharacters | src/utils/preprocess.py:28-31 | the result holds no upper-case letter, no digit and no punctuation, and its only whitespace is single inner spaces |
| Preprocess.CleanTextFixesClean | src/utils/preprocess.py:28-31 | clean_text leaves text of that cleaned shape unchanged |
| Preprocess.CleanTextFixpoints | src/utils/preprocess.py:28-31 | clean_text maps a text to itself exactly when the text has the cleaned shape |
| Preprocess.CleanTextIdempotent | src/utils/preprocess.py:28-31 | cleaning twice gives the same as cleaning once |
| Preprocess.CleanTextDeletesDigits | src/utils/preprocess.py:29-31 | digit runs are deleted, not replaced: inserting a run of digits anywhere does not change the cleaned text |
| Preprocess.CleanTextDigitsInWord | src/utils/preprocess.py:29 | "node12" cleans to "node" |
| Preprocess.CleanTextDigitsBetweenSpaces | src/utils/preprocess.py:29-31 | "a 1 b" cleans to "a b" |
| Preprocess.CleanTextAllSpace | src/utils/preprocess.py:31 | text of whitespace only cleans to the empty string |
| Preprocess.CleanTextJoinsWords | src/utils/preprocess.py:28-31 | clean_text is the words of the lower-cased text, after both deletions, joined by single spaces |
| Preprocess.DropStopWords | src/utils/preprocess.py:39 | filtering never lengthens the word list |
| Preprocess.KeptPositionsEmbed | src/utils/preprocess.py:39 | the kept words sit at increasing positions of the word list, in order |
| Preprocess.KeptPositionsExact | src/utils/preprocess.py:39 | the kept positions are exactly the positions whose word is not a stop word |
| Preprocess.TokenizeTextSpec | src/utils/preprocess.py:38-39 | the tokens are an order-preserving subsequence of `split()`; each is non-empty, has no whitespace and is not a stop word; every word that is not a stop word is among them |
| Preprocess.AddCleanedText | src/utils/preprocess.py:52 | on a well-formed frame with a log_message column, every row gets cleaned_text = clean_text(log_message), everything else in the row is kept, the column is added, and the frame stays well-formed |
| Preprocess.AddTokens | src/utils/preprocess.py:53 | on a well-formed frame with a cleaned_text column, every row gets tokens = tokenize_text(cleaned_text), everything else in the row is kept, the column is added, and the frame stays well-formed |
| Preprocess.PreprocessBglLogs | src/utils/preprocess.py:49-54 | without a log_message column it fails with the ValueError and its message and leaves the frame unchanged; otherwise each row gets both new cells, the row count and the other cells are unchanged, and exactly the two new columns are added |
| Etl.ParseLinesAppend | src/etl/etl_pipeline.py:17-29 | the records of two runs of lines are the records of the first run followed by those of the second |
| Etl.CollectRecords | src/etl/etl_pipeline.py:15-29 | the loop, with its skip of blank lines, appends exactly the records the lines parse to, in line order |
| Etl.ParseBglLog | src/etl/etl_pipeline.py:15-31 | the frame has one row per record, in order, with the columns alert and log_message, or no columns when there is no record |
| Etl.ParseLineBlank | src/etl/etl_pipeline.py:19-21 | a line gives no record exactly when it is all whitespace |
| Etl.ParseLineFields | src/etl/etl_pipeline.py:19-28 | the alert is non-empty and has no whitespace; the message has none at either end; the stripped line is alert + whitespace run + message, where the run is non-empty exactly when the message is, and the message is empty exactly when the stripped line has no whitespace |
| Etl.ParseLineSingleToken | src/etl/etl_pipeline.py:26-28 | a line holding one token gives that token as the alert and the empty message |
| Etl.ParseLinesNonBlank | src/etl/etl_pipeline.py:17-29 | there are as many records as non-blank lines, and the k-th record is what the k-th non-blank line parses to |
| Etl.ParseLinesFields | src/etl/etl_pipeline.py:23-29 | every record of the loop has a non-empty, whitespace-free alert and a message without whitespace at either end |
| Train.AlertLabel | src/model/train_model.py:18 | the label is 0 or 1 |
| Train.AlertLabelZero | src/model/train_model.py:18 | the label is 0 exactly when the alert is one '-' with only whitespace around it |
| Train.AlertLabelExamples | src/model/train_model.py:18 | " - " and "-" give 0 and "APPSEV" gives 1 |
| Train.AddLabels | src/model/train_model.py:18 | every row gets label = the label of its own alert, the other cells are kept, the label column is added, and the returned labels are that column in row order |
| Train.CleanedColumn | src/model/train_model.py:21-22 | the selected texts are the cleaned_text cells, unchanged and in row order |
| Train.LoweredMessages | src/model/train_model.py:23-24 | the selected texts are the log_message cells lower-cased and nothing else, in row order |
| Train.PrepareData | src/model/train_model.py:16-25 | without an alert column it raises KeyError('alert') and leaves the frame unchanged. Otherwise it adds the label column, one label per row from that row's alert, and returns the labels together with the cleaned_text column if present, else the lower-cased log_message column, else it raises KeyError('log_message') |
| Api.TrainServeAgree | src/api/app.py:23-32 | the endpoint's clean_text equals the training pipeline's clean_text on every input |
| Api.PredictLog | src/api/app.py:37-50 | the handler refuses with 400 "Log message is required." exactly for the empty message, and any label it returns is 0 or 1 |
| Api.EmptyMessageRejected | src/api/app.py:43-44 | the empty message is refused with status 400 whatever the artifacts are, so neither is consulted |
| Api.PredictLogClassifiesCleaned | src/api/app.py:46-50 | for a non-empty message the answer is the classification of exactly clean_text(message), as a one-element batch, taking the first predicted label |
| Api.WhitespaceMessageClassifiedEmpty | src/api/app.py:43-46 | a whitespace-only message passes the guard and is classified as the empty text |
| Api.PredictLogDependsOnCleaned | src/api/app.py:46-50 | two non-empty messages with the same cleaned text get the same answer |
| Api.PredictLogCleanedAgain | src/api/app.py:46-50 | resubmitting the cleaned form of a message, when it is not empty, gets the same answer as the message |

## Left out

- TF-IDF fitting and transformation (`extract_tfidf_features` and the
  vectorizer of training). It is a library implementation with
  floating-point weights. At the endpoint it is an opaque `transform`
  function. It re-tokenizes `cleaned_text` with its own token pattern, so
  the `tokens` column feeds nothing downstream.
- Logistic-regression training and prediction. The library's optimiser
  works in floating point. At the endpoint it is an opaque `predict`
  function returning labels in {0, 1}.
- `train_test_split`, evaluation metrics and printing in the training
  script: randomness and output.
- File and CSV I/O, directory creation and path computation. Lines are
  given as a sequence of strings. Values that read back from a CSV as
  missing (an empty message becomes NaN) are not modelled.
- Loading the artifacts with joblib at module import, and the RuntimeError
  raised when that fails. The endpoint is modelled with the artifacts
  already loaded.
- FastAPI routing, pydantic validation of the request body (a missing
  field is refused before the handler runs), and the static `read_root`
  welcome route.
- The NLTK download, the SSL workaround and the loading of the English stop
  words. The stop-word set is a parameter.
- The column-listing script src/utils/test.py, which only reads a CSV and
  prints.
- Unicode semantics of `str.lower`, `\w`, `\d`, `\s`, `strip` and `split`.
  Only ASCII is modelled, as described above.
- Pandas behaviour beyond the five columns: other columns, indexes and
  dtypes. `.str.lower()` on a column that is not of strings is also left out.
- Literal end-to-end line examples (such as parsing
  "- core.1234 generic message here") are not stated as lemmas. The
  general lemmas `Etl.ParseLineFields` and `Etl.ParseLineSingleToken`
  cover them.
- How the web framework answers an `IndexError` raised by indexing an empty
  prediction. The model returns that error as a result; the HTTP status the
  framework would send for it is not modelled.
