# databankpy: datasets and CSV ingestion, in Dafny

This project models the in-memory core of the `databankpy` client library:

- the first-match searches `find` and `find_index` of `databankpy/utils.py`;
- the `Dataset` class of `databankpy/dataset.py`:
  - its construction from a dataset descriptor;
  - `len(dataset)` and `column_names`;
  - `append_csv`, which appends the rows of a CSV file to the dataset's columns.

The column types `FLOAT`, `INTEGER` and `STRING` map to numpy storage types through
`DTYPE_MAP`. The model keeps that map as a type tag on every stored value (`Dtype`). A
32-bit integer is the `int32` newtype.

`append_csv` works on a file that has already been split into a header and data rows.
It runs these steps in order:

1. It turns the header into dictionary keys. Each name appears once, at its first
   occurrence (`Keys`).
2. It checks that every declared column is among the keys. If not, it raises
   RuntimeError (`MissingColumn`).
3. It distributes field `q` of every row to the `q`-th key. A row with too few fields
   raises IndexError (`RowTooShort`).
4. It commits key by key:
   - it looks up the first column with that name (`find_index`);
   - a name with no column fails the `assert` (`UnknownHeader`);
   - it converts all of that key's fields to the column's storage type and appends
     them in place. A field the type rejects raises numpy's error (`ConversionFailed`).

The modules are:

- `Utils`: `find` and `find_index`. Each is a specification function plus the loop the
  source runs, proved equal to that function.
- `Columns`: the column types, `DTYPE_MAP`, the definitions and the all-or-nothing
  conversion of text to stored values.
- `CsvIngest`: `append_csv` as a function from the old columns to an outcome and the new
  columns. It also holds a second, independent description of the commit loop over the
  column definitions only (`Stop`, `Gain`), and the lemmas that connect the two.
- `Datasets`: the `Dataset` class. Its `AppendCsv` method runs the source's loops in
  place and is proved to produce exactly what `CsvIngest.AppendCsv` specifies.
- `CsvIngestCases`: small inputs that show how the source behaves on repeated header
  names, repeated column names and a failure part-way through the commit loop.

## Model

| member | source | states |
|---|---|---|
| Utils.FirstIndex | databankpy/utils.py:15-19 | the result is the index of an element satisfying the callback with none before it; it is None exactly when no element satisfies it |
| Utils.FindIndex | databankpy/utils.py:15-19 | the left-to-right loop returns exactly `FirstIndex` |
| Utils.First | databankpy/utils.py:9-13 | the result is an element of the list that satisfies the callback; it is None exactly when no element does |
| Utils.Find | databankpy/utils.py:9-13 | the loop over the elements returns exactly `First` |
| Utils.FirstIsAtFirstIndex | databankpy/utils.py:9-19 | `find` returns the element at the index `find_index` returns, and None when that index is None |
| Utils.FirstIndexIs | databankpy/utils.py:15-19 | a satisfying index with no satisfying element before it is the index `find_index` returns |
| Utils.FirstIndexPrefix | databankpy/utils.py:15-19 | elements appended after the first hit do not change the index `find_index` returns |
| Utils.FirstIndexCongruent | databankpy/utils.py:15-19 | the search depends only on which positions satisfy the callback |
| Columns.ConvertValue | databankpy/dataset.py:25-29 | a converted field is stored in the dtype `DTYPE_MAP` gives the column type; a STRING field is stored as its own text |
| Columns.ConvertAll | databankpy/dataset.py:119 | converting a column's fields succeeds exactly when every field converts; it then yields one value per field, in order, each the field's own conversion |
| Columns.ConvertAllString | databankpy/dataset.py:119 | a STRING column accepts every field and stores each one's text |
| Columns.ConvertAllStorage | databankpy/dataset.py:117-119 | every value converted for a column of type t is stored as `DTYPE_MAP[t]` |
| CsvIngest.Keys | databankpy/dataset.py:105 | the keys hold exactly the header's names, each once, no more of them than header fields; a header without repeats is its own key list |
| CsvIngest.FirstPos | databankpy/dataset.py:105 | the position of a header name's first occurrence: the name is there, nowhere before it, and `find_index` over the header finds it there |
| CsvIngest.KeysInHeaderOrder | databankpy/dataset.py:105 | the keys come in the order of each name's first occurrence in the header, the dict's insertion order; with the contract of `Keys`, this fixes the keys of every header |
| CsvIngest.Field | databankpy/dataset.py:110-112 | the list distributed to key position q has one entry per row, and entry t is field q of row t |
| CsvIngest.Stop | databankpy/dataset.py:114-120 | the reference stopping point is the first key from j on that does not commit, with every key before it committing |
| CsvIngest.CommitKeepsDefinitions | databankpy/dataset.py:114-120 | the commit loop changes no column definition, only data |
| CsvIngest.CommitOutcome | databankpy/dataset.py:114-120 | the commit loop ends with success exactly when every key commits; otherwise it reports the first key that does not commit, as an unknown header or a failed conversion |
| CsvIngest.CommitData | databankpy/dataset.py:114-120 | every column ends as its old data followed by the converted fields of each committed key whose lookup lands on it, in key order |
| CsvIngest.LookupUnique | databankpy/dataset.py:115 | with unique column names, the lookup of a name lands on a column exactly when that column carries the name |
| CsvIngest.GainOfUniqueName | databankpy/dataset.py:114-120 | with unique column names and distinct keys, a column gains exactly the converted fields of the one key carrying its name, and nothing when no committed key carries it |
| CsvIngest.AppendCsvGate | databankpy/dataset.py:105-112 | the commit loop runs exactly when every declared column is in the header and every row has a field for every key; otherwise the columns are unchanged and the outcome is a missing column or a short row |
| CsvIngest.AppendCsvMissingColumn | databankpy/dataset.py:105-108 | the call fails with a missing column exactly when some declared column is absent from the header; it names the first such column and changes nothing |
| CsvIngest.AppendCsvRowTooShort | databankpy/dataset.py:110-112 | with every declared column present, the call fails on a short row exactly when some row has fewer fields than there are keys; it reports the first such row and changes nothing |
| CsvIngest.KeyCommitsUnique | databankpy/dataset.py:115-119 | with unique column names, a key commits exactly when some column carries its name and that column's type accepts all of the key's fields |
| CsvIngest.CommitCompletes | databankpy/dataset.py:114-120 | the commit loop completes exactly when every key commits |
| CsvIngest.CommitCompletesUnique | databankpy/dataset.py:114-120 | with unique column names, the commit loop completes exactly when every key names a column whose type accepts all of its fields |
| CsvIngest.CommitAppended | databankpy/dataset.py:114-120 | a completed commit loop over distinct keys and unique names leaves each named column as its old data followed by the converted fields at its key's position |
| CsvIngest.AppendCsvSucceedsWhen | databankpy/dataset.py:105-120 | with unique column names, the call succeeds exactly when every declared column is in the header, every row is wide enough, and every key names a column whose type accepts all of its fields |
| CsvIngest.AppendCsvAppended | databankpy/dataset.py:105-120 | with unique column names, a successful call keeps every definition and makes each column its old data followed by the converted fields under its name, in row order |
| CsvIngest.CommitStopsPartway | databankpy/dataset.py:114-120 | a failing commit loop over distinct keys and unique names leaves the columns named by earlier keys extended by one value per row, and all others untouched |
| CsvIngest.AppendCsvStopsPartway | databankpy/dataset.py:114-120 | with unique column names, a failure in the commit loop reports a header name (unknown exactly when no column carries it) after extending the columns named earlier in the header by one value per row; the rest are untouched |
| CsvIngest.CommitKeepsTyped | databankpy/dataset.py:117-120 | each commit stores only values of the column's own storage type |
| CsvIngest.AppendCsvKeepsTyped | databankpy/dataset.py:100-120 | whatever the outcome, every stored value keeps the storage type of its column |
| CsvIngest.AppendCsvGrowsColumns | databankpy/dataset.py:110-120 | with unique column names, a successful call grows every column by exactly one value per data row |
| CsvIngest.AppendCsvGrowsFirst | databankpy/dataset.py:73-74 | with unique column names, a successful call grows the first column, the one `len(dataset)` reads, by one value per data row |
| CsvIngest.GrowthKeepsRectangular | databankpy/dataset.py:117-120 | growing every column by the same count keeps equal-length columns equal |
| CsvIngest.AppendCsvKeepsRectangular | databankpy/dataset.py:100-120 | with unique column names, a successful call keeps equal-length columns equal |
| CsvIngest.AppendCsvTwice | databankpy/dataset.py:100-120 | with unique column names, two successful calls grow every column by the data rows of both |
| CsvIngestCases.DuplicateHeaderMisaligns | databankpy/dataset.py:105-112 | with header a,a,b and one row, column b receives the field under the second a, not the one under b |
| CsvIngestCases.DuplicateColumnStarves | databankpy/dataset.py:115-120 | when two columns share a name, only the first is extended; equal-length columns come out of a successful call with unequal lengths |
| CsvIngestCases.ConversionFailureIsNotAtomic | databankpy/dataset.py:114-120 | a rejected field fails the call after an earlier column was already extended, so equal-length columns come out with unequal lengths |
| CsvIngestCases.UnknownHeaderIsNotAtomic | databankpy/dataset.py:114-116 | a header name no column carries fails the call, after the columns before it were already extended |
| Datasets.Dataset.constructor | databankpy/dataset.py:55-63 | the metadata is the descriptor's; there is one empty column per descriptor definition, in order; with at least one column `len` is 0; every value is correctly typed |
| Datasets.Dataset.Length | databankpy/dataset.py:73-74 | the result is None exactly when there are no columns, where the source raises IndexError; otherwise it is the length of the first column, and when the columns have equal lengths, the length of every one |
| Datasets.Dataset.ColumnNames | databankpy/dataset.py:96-98 | one name per column, in column order |
| Datasets.Dataset.AppendCsv | databankpy/dataset.py:100-120 | the outcome and the new columns are exactly `CsvIngest.AppendCsv` of the old columns; the typing invariant is preserved |
| Datasets.FirstMissing | databankpy/dataset.py:106-108 | the loop returns the position of the first declared column the keys lack, or None |
| Datasets.Distribute | databankpy/dataset.py:110-112 | the loop reports the first row with too few fields; otherwise it yields, for each key position, that field of every row |

## Left out

- Reading the file and CSV tokenising (`open`, `csv.reader`, `next(reader)`) are not modelled. The model takes the header and the data rows already split, so the StopIteration that `next(reader)` raises on an empty file is not modelled either.
- Columns.Converter: numpy's parsing of text to float64 and int32 is a pair of abstract functions. Each either yields a value or rejects the text. A float64 is a mathematical real, with no rounding.
- Extra header names: a header name that no declared column carries is not ignored. The `assert` at `databankpy/dataset.py:116` fails, after earlier keys were already committed. The model follows this code (`UnknownHeader`), which differs from a description of the method as ignoring extra CSV columns.
- Exceptions are modelled as the `Outcome` value of the call. The columns are left as the source leaves them at the point it raises.
- CsvIngest.AppendCsvSucceedsWhen, CsvIngest.AppendCsvAppended, CsvIngest.AppendCsvStopsPartway, CsvIngest.AppendCsvGrowsColumns, CsvIngest.AppendCsvGrowsFirst, CsvIngest.AppendCsvKeepsRectangular and CsvIngest.AppendCsvTwice assume unique column names. Repeated names are covered only by `CsvIngestCases.DuplicateColumnStarves` and by the general `CommitData`.
- Utils.First and Utils.Find: `find` accepts any iterable. The model takes a sequence, so lazily produced or one-shot iterables are not modelled.
- Datasets.Dataset.ColumnNames: the source builds `column_names` as a numpy `str_` array, which drops trailing NUL characters from each name. The header check at `databankpy/dataset.py:106-107` compares these shortened names, while the lookup at line 115 compares the stored names. The model keeps every name unchanged in both places, so it differs from the source for declared names that end in NUL. For example, with the declared name `a\0` and the header `a`, the source passes the check and then fails the `assert` after committing the keys before `a`; the model reports a missing column and changes nothing.
- Datasets.Dataset.constructor: the model takes only descriptors that match the source's `DatasetInfo` annotation. A type tag outside `DTYPE_MAP` raises KeyError at `databankpy/dataset.py:62`, and a missing descriptor key raises KeyError too. The closed `ColumnType` and the `DatasetInfo` record cannot express either, so these errors are not modelled.
- Datasets.Dataset.constructor: the descriptor's `nullable` and `description` of each column are carried along but have no effect, as in the source.
- The `name`, `description`, `license` and `columns` properties are plain reads of fields and are the class's fields here.
- `__array__` (a numpy structured view of the dataset), `upload` and its HTTP calls, `databankpy/auth.py` and `NumpyEncoder` (JSON encoding) are not part of this model: they are I/O or numpy interop.
- Object identity of the numpy arrays is not modelled. The source replaces each column's array with a new one built by `np.append`; the model gives the column a new value.
