# Domain ASR error detection — Dafny model

The repository is a Streamlit page. It takes three spreadsheets: an ASR
transcript, a human-corrected transcript and a domain dictionary. It reports
every domain word that appears in a corrected line but not in the matching ASR
line. This project models the detection step as pure functions and proves
what its output contains.

- `Text` (text.dfy) covers lower-casing of a cell's text and Python's
  substring test `word in text`. `Find` is the left-to-right search that
  decides it.
- `Dictionary` (dictionary.dfy) covers the domain words: the dictionary
  column, lower-cased and deduplicated.
- `Detector` (detector.dfy) has one record datatype, `ErrorRecord`, with the
  fields `Row`, `Missing Domain Word`, `ASR Text` and `Corrected Text`.
  - `Detect` walks the aligned rows in ascending order. For each row and each
    word, it emits a record exactly when the word is in the lower-cased
    corrected text and not in the lower-cased ASR text.
  - `DetectErrors` is the nested loop as the page writes it. Its inner loop is
    `AppendRowErrors`. Both are proved equal to the functional definitions.
  - `Run` chains the dictionary step and the detector.
- `Scenarios` (scenarios.dfy) holds one worked example on concrete
  transcripts.

Matching is exact substring matching, as in the code. There is no similarity
score, threshold or sliding window. Each record covers one (row, word) pair and
carries the lower-cased texts. An empty dictionary is not an error; it simply
yields no records.

The dictionary is a Python set, and Python does not fix the order in which it
iterates over a set. The model keeps the words in the order of their first
occurrence in the column. Every property proved here holds for any word
order, and `Detector.OrderIndependent` proves that the set of records does not
depend on that order.

## Model

| member | source | states |
|---|---|---|
| Text.Lower | app.py:26-27 | the lower-cased text has the same length, maps each character through the ASCII lower-casing, and contains no upper-case letter |
| Text.LowerIdempotent | app.py:21-27 | lower-casing is idempotent: lower-casing a text twice gives the same result as lower-casing it once |
| Text.ContainsIffOccurs | app.py:30 | the substring test holds exactly when the word starts at some position of the text |
| Text.Find | app.py:30 | the search reports found exactly when the word is a substring, and then returns the first position where it occurs |
| Text.ContainsTransitive | app.py:30 | a word inside a text that itself occurs inside another text is also inside that other text |
| Dictionary.DomainWords | app.py:21 | the domain words are exactly the lower-cased cells of the column, with no duplicates, each lower-case, and their count is the size of that set |
| Dictionary.DomainWordsDependOnCellsOnly | app.py:21 | columns holding the same cells yield the same set of domain words, whatever their order or repetition |
| Detector.RowCount | app.py:25 | the number of rows walked is the length of one transcript and no larger than either |
| Detector.RowErrors | app.py:29-36 | a row's records all carry that 1-based row and its two texts and name a word missing there, and every missing word has its record |
| Detector.DetectRows | app.py:25-36 | the records of the first n rows are exactly the missing (row, word) pairs of those rows, at most n times the number of words |
| Detector.Detect | app.py:23-36 | every record is a finding of a row within both transcripts, every missing (row, word) pair is reported, and the count is at most rows times words |
| Detector.Run | app.py:21-36 | every record names a row within both transcripts, carries that row's lower-cased texts, and names a lower-cased dictionary cell that is in the corrected text and not in the ASR text; every cell whose lower-cased form is missing at a row is reported for that row; no (row, word) pair appears twice; the count is at most rows times distinct lower-cased cells |
| Detector.Characterisation | app.py:29-30 | the record for row i+1 and word w is in the output if and only if w is in the corrected text and not in the ASR text of row i |
| Detector.RowsInRange | app.py:25-32 | every row number lies between 1 and the length of the shorter transcript |
| Detector.Truncation | app.py:25 | cutting both transcripts to the shorter length leaves the output unchanged |
| Detector.SamePrefixSameRows | app.py:25-27 | the records of the first n rows depend only on the first n rows of each transcript |
| Detector.AppendRow | app.py:25-36 | appending one aligned row appends exactly that row's records and leaves the earlier ones unchanged |
| Detector.RowsAscending | app.py:25-32 | the records of the first n rows are in non-decreasing row order |
| Detector.DetectAscending | app.py:25-32 | the detector's output is in non-decreasing row order |
| Detector.RowErrorsDistinct | app.py:29-33 | with distinct words, one row never reports the same word twice |
| Detector.RowsDistinct | app.py:25-33 | with distinct words, the first n rows never report the same (row, word) pair twice |
| Detector.DetectDistinct | app.py:21-33 | with distinct words, at most one record exists per (row, word) pair |
| Detector.EmptyDictionary | app.py:29 | an empty dictionary yields no records |
| Detector.EmptyWordNeverMissing | app.py:30 | the empty word is never reported missing |
| Detector.CorrectedInsideAsr | app.py:26-30 | a row whose lower-cased corrected text occurs inside its lower-cased ASR text yields no record |
| Detector.IdenticalRows | app.py:26-30 | a row whose ASR and corrected texts are equal yields no record |
| Detector.OrderIndependent | app.py:29 | two word sequences with the same elements yield the same set of records |
| Detector.AppendRowErrors | app.py:29-36 | the inner loop over the words, using the substring search on both texts, appends exactly the row's records to the list built so far |
| Detector.DetectErrors | app.py:23-36 | the nested loop over rows and words, using the substring search, builds exactly the detector's output |
| Scenarios.RefundScenario | app.py:25-36 | with word "refund", a row with the word on both sides yields nothing; a row with "REFUND" only in the corrected text yields one record for row 2 with lower-cased texts |

## Left out

- The Streamlit page is not modelled: page setup, titles, upload widgets, the result table and the success/info/warning messages (app.py:1-19, app.py:38-45). They are presentation and I/O.
- Reading the Excel files and selecting the first column (app.py:15-17, and the `iloc` calls at app.py:21, app.py:26-27) is not modelled. These are foreign library calls; the model receives the columns as sequences of strings.
- Coercion of cells with `str()` / `.astype(str)` is not modelled; for example, a missing cell becomes "nan". Every cell is taken to be a string already.
- Text.Lower: only the ASCII letters A-Z are mapped. Python's `str.lower` applies the full Unicode case mapping, which can also change non-ASCII letters and the length of the text. That mapping is not modelled.
- The iteration order of the Python set of domain words (app.py:29) is not modelled. The model uses first-occurrence order, and order-free properties are proved instead.
