# Patient tracker: repository and CSV store

This project models the data layer of the Patient Tracker Android app: the
`PatientRepository` that holds the published list of patient locations, and the
CSV text it reads from and writes to its storage file.

- A `PatientLocation` is a record with an integer `bil` (the identifier), six
  text fields, a patient count and two coordinates (`Records`).
- `load` reads the storage file. If the file does not exist yet, it first copies
  the bundled `patients.csv` asset into storage. The published list is whatever
  the text decodes to.
- `addOrUpdate` replaces the first record with the same `bil`. If there is none,
  it appends the record under the largest `bil` plus one. That `bil` is fresh
  while the largest one is below `Int.MAX_VALUE`; at the maximum the addition
  wraps to `Int.MIN_VALUE`, which may already be taken. It then sorts stably by
  `bil`, publishes the list and rewrites the file.
- `delete` drops every record with the given `bil`, publishes the rest in their
  order and rewrites the file.
- The file is a header line followed by one line per record. A cell is quoted
  when it holds a quote, a comma or a `'\n'` (not for `'\r'`), and quotes inside it are
  doubled. Reading is lenient:
  - the text is split into lines at `"\r\n"`, `'\n'` and a lone `'\r'`, before
    any quote is looked at;
  - the first line is always dropped, and blank lines are ignored;
  - a line is skipped when it has fewer than ten cells, or when its `bil` or a
    coordinate does not parse;
  - a patient count that does not parse reads as 0;
  - each cell is trimmed.

Modules:

- `Text`: the Kotlin library behaviour the codec relies on. That is `isWhitespace`,
  `trim`, `isBlank`, `lineSequence`, `toIntOrNull`, `Int.toString` and 32-bit
  wrap-around.
- `CsvLine`: reading one line into cells and writing cells into one line.
- `CsvDocument`: the whole text, encode and decode.
- `RecordList`: the list operations behind `addOrUpdate` and `delete`.
- `Repository`: the `PatientRepository` class, whose fields are the storage
  file's contents and the published list.
- `Wrappers` and `Seqs`: an `Option` type and small sequence lemmas.

The main results:

- The line reader is a `while` loop over the line, proved equal to a recursive
  specification.
- Writing a list and reading it back gives the same list, in the same order,
  when every text field is trimmed and holds no `'\n'` or `'\r'`, and every coordinate
  reads back as itself. For a single record whose coordinates read back, the
  text-field condition is also necessary.
- The effect of `addOrUpdate` and `delete` is characterised per `bil`. After
  either one, when every record is writable (text fields trimmed and free of
  `'\n'` and `'\r'`, coordinates that read back), the file reads back as the
  published list.

Some cells do not survive being written and read back:

- A cell holding `'\n'` is quoted by the writer, but the reader splits the text
  into lines before it looks at quotes, so the quoted cell is cut in two.
- A cell holding `'\r'` but no quote, comma or `'\n'` is written unquoted, and
  the reader breaks the line there too.
- A cell with leading or trailing whitespace loses it. It is written unquoted
  unless it holds a quote, a comma or a `'\n'`, and the reader trims every cell,
  including whitespace inside quotes.

A cell that the reader trims comes back changed. A cut line falls apart into pieces that are
read as separate lines; those with fewer than ten cells are dropped.
For a record whose coordinates read back, `SingleRecordRoundTrip` proves the
exact condition on the text fields under which it comes back.

## Model

| member | source | states |
|---|---|---|
| Text.Trim | app/src/main/java/com/example/patienttracker/data/PatientRepository.kt:132 | `trim` returns a stretch of the input with only whitespace before and after it, and no whitespace at either end of its own. An already trimmed string comes back unchanged. The result is empty exactly when the input is blank. |
| Text.TrimStartDrops | app/src/main/java/com/example/patienttracker/data/PatientRepository.kt:132 | Trimming the start drops only whitespace: everything before the kept suffix is whitespace. |
| Text.TrimEndDrops | app/src/main/java/com/example/patienttracker/data/PatientRepository.kt:132 | Trimming the end drops only whitespace: everything after the kept prefix is whitespace. |
| Text.Lines | app/src/main/java/com/example/patienttracker/data/PatientRepository.kt:56 | `lineSequence` breaks at `"\r\n"`, `'\n'` and a lone `'\r'`. It gives at least one line, and no line holds `'\n'` or `'\r'`. Joining the lines with `'\n'` gives the text with every break written as `'\n'`. |
| Text.NormalizeFree | app/src/main/java/com/example/patienttracker/data/PatientRepository.kt:56 | A text without `'\r'` is unchanged when its breaks are written as `'\n'`. |
| Text.JoinLinesPlain | app/src/main/java/com/example/patienttracker/data/PatientRepository.kt:56 | For a text without `'\r'`, joining its lines with `'\n'` gives the text back. |
| Text.LinesCons | app/src/main/java/com/example/patienttracker/data/PatientRepository.kt:56-57 | A first line with no `'\n'` or `'\r'`, followed by `'\n'`, is split off whole, and the rest is split on its own. |
| Text.LineBreakSplits | app/src/main/java/com/example/patienttracker/data/PatientRepository.kt:56 | A text containing `'\n'` or `'\r'` splits into at least two lines. |
| Text.ParseShowInt | app/src/main/java/com/example/patienttracker/data/PatientRepository.kt:62-63 | `toIntOrNull` reads back exactly the `Int` that `toString` wrote (lines 88 and 92), for every `Int`. |
| Text.ShowIntPlain | app/src/main/java/com/example/patienttracker/data/PatientRepository.kt:88 | The text of an `Int` is trimmed and holds no quote, comma, `'\n'` or `'\r'`, so it is written unquoted and on one line. |
| Text.Wrap32 | app/src/main/java/com/example/patienttracker/data/PatientRepository.kt:106-107 | `Int` addition: values in range are unchanged, and out-of-range values are congruent modulo 2^32. |
| CsvLine.ParseLine | app/src/main/java/com/example/patienttracker/data/PatientRepository.kt:113-141 | There is always at least one cell. There is one cell more than there are commas outside quotes. Every cell is trimmed. |
| CsvLine.ParseCsvLine | app/src/main/java/com/example/patienttracker/data/PatientRepository.kt:113-141 | The character-by-character loop (doubled quotes, quote toggling, commas outside quotes, trimming) returns exactly `ParseLine`. |
| CsvLine.ScanShape | app/src/main/java/com/example/patienttracker/data/PatientRepository.kt:119-139 | From any scanner state, the number of cells is one more than the number of unquoted commas, and each cell is trimmed. |
| CsvLine.ParseLineKeepsOut | app/src/main/java/com/example/patienttracker/data/PatientRepository.kt:113-141 | A character absent from the line is absent from every cell. |
| CsvLine.QuoteFreeCellCount | app/src/main/java/com/example/patienttracker/data/PatientRepository.kt:131-139 | A line without quotes has exactly one cell more than it has commas. |
| CsvLine.Escape | app/src/main/java/com/example/patienttracker/data/PatientRepository.kt:145 | Doubling the quotes lengthens the text by exactly the number of quotes in it. |
| CsvLine.EscapeKeeps | app/src/main/java/com/example/patienttracker/data/PatientRepository.kt:145 | Doubling quotes adds only quotes: any other character is in the result exactly when it is in the input. |
| CsvLine.ToCellShape | app/src/main/java/com/example/patienttracker/data/PatientRepository.kt:143-149 | `toCsvCell` leaves a cell unchanged exactly when it holds no quote, comma or `'\n'` (a `'\r'` alone does not cause quoting). Otherwise the result starts and ends with a quote and is longer by two plus the number of quotes. |
| CsvLine.ToCellKeeps | app/src/main/java/com/example/patienttracker/data/PatientRepository.kt:143-149 | Writing a cell adds only quotes: any other character, such as `'\n'` or `'\r'`, is in the written cell exactly when it is in the cell. |
| CsvLine.JoinCellsKeeps | app/src/main/java/com/example/patienttracker/data/PatientRepository.kt:98 | Joining adds only quotes and commas: any other character, such as `'\n'` or `'\r'`, is in the written line exactly when one of the cells holds it. |
| CsvLine.JoinCellsNotBlank | app/src/main/java/com/example/patienttracker/data/PatientRepository.kt:98 | A line joined from two or more cells is never blank, because it contains a comma. |
| CsvLine.ScanQuoted | app/src/main/java/com/example/patienttracker/data/PatientRepository.kt:122-130 | The scanner reads a quoted, escaped cell back as the original cell, leaving quoted mode at the closing quote. |
| CsvLine.ScanJoinCells | app/src/main/java/com/example/patienttracker/data/PatientRepository.kt:113-149 | Scanning the comma-joined written form of trimmed cells gives those cells back. |
| CsvLine.ParseJoinCells | app/src/main/java/com/example/patienttracker/data/PatientRepository.kt:98 | For a non-empty list of cells, reading the written line gives the cells back if and only if every cell is trimmed. Line breaks inside cells survive at this level. |
| CsvLine.ParseToCell | app/src/main/java/com/example/patienttracker/data/PatientRepository.kt:143-149 | A trimmed cell written with `toCsvCell` reads back as that single cell. |
| CsvDocument.RecordLineFields | app/src/main/java/com/example/patienttracker/data/PatientRepository.kt:86-98 | A record line splits back into its ten fields in column order (bil, zon, region, address, patients, latitude, longitude, contact name, contact phone, status), provided the fields are trimmed. |
| CsvDocument.BuildCsv | app/src/main/java/com/example/patienttracker/data/PatientRepository.kt:81-101 | The `buildString` loop writes the header line and then one line per record, in list order. The result equals `Encode`. |
| CsvDocument.EncodeSnoc | app/src/main/java/com/example/patienttracker/data/PatientRepository.kt:85-100 | Writing one more record appends exactly its line and a `'\n'`. |
| CsvDocument.HeaderOneLine | app/src/main/java/com/example/patienttracker/data/PatientRepository.kt:153 | The header holds no `'\n'` or `'\r'`, so it is a single line. |
| CsvDocument.RecordLines | app/src/main/java/com/example/patienttracker/data/PatientRepository.kt:85-99 | There is one written line per record, and the i-th line is the i-th record's line. |
| CsvDocument.RecordLineOneLine | app/src/main/java/com/example/patienttracker/data/PatientRepository.kt:86-98 | A record whose fields hold no `'\n'` or `'\r'` is written on a single line. |
| CsvDocument.EncodeLayout | app/src/main/java/com/example/patienttracker/data/PatientRepository.kt:83-101 | When no field holds `'\n'` or `'\r'`, the written text splits into the header, one line per record in order, and a final empty line. |
| CsvDocument.DecodeLines | app/src/main/java/com/example/patienttracker/data/PatientRepository.kt:58-78 | Each data line yields at most one record. |
| CsvDocument.Decode | app/src/main/java/com/example/patienttracker/data/PatientRepository.kt:54-79 | The text yields fewer records than it has lines, because the first line never yields one. |
| CsvDocument.DecodeLineRules | app/src/main/java/com/example/patienttracker/data/PatientRepository.kt:58-77 | A line is dropped exactly when it is blank, has fewer than ten cells, or its bil, latitude or longitude cell does not parse. Otherwise it yields one record read from its cells, with `patients` 0 when that cell is not an integer. |
| CsvDocument.DecodeLinesAppend | app/src/main/java/com/example/patienttracker/data/PatientRepository.kt:58-78 | Lines decode independently, and records come out in line order. |
| CsvDocument.HeaderDropped | app/src/main/java/com/example/patienttracker/data/PatientRepository.kt:57 | The first line is dropped whatever it holds. |
| CsvDocument.SingleLineEmpty | app/src/main/java/com/example/patienttracker/data/PatientRepository.kt:57 | A text without `'\n'` or `'\r'` is one line, so it holds no records (the empty text included). |
| CsvDocument.DecodedFromLine | app/src/main/java/com/example/patienttracker/data/PatientRepository.kt:58-78 | Every decoded record comes from one data line. |
| CsvDocument.ParseRecordOfFields | app/src/main/java/com/example/patienttracker/data/PatientRepository.kt:59-77 | A line whose cells are a record's fields, with coordinates that read back as themselves, rebuilds exactly that record. |
| CsvDocument.FieldsPlain | app/src/main/java/com/example/patienttracker/data/PatientRepository.kt:86-98 | Every field of a writable record is trimmed and holds no `'\n'` or `'\r'`. |
| CsvDocument.RecordLineRoundTrip | app/src/main/java/com/example/patienttracker/data/PatientRepository.kt:59-98 | A writable record's line is a single line (no `'\n'` or `'\r'`) and decodes to exactly that record. |
| CsvDocument.DecodeEncode | app/src/main/java/com/example/patienttracker/data/PatientRepository.kt:54-104 | Reading back the text written for a list of writable records gives the same list, in the same order. A writable record has text fields that are trimmed and hold no `'\n'` or `'\r'`, and coordinates that read back as themselves. |
| CsvDocument.DecodedFieldsPlain | app/src/main/java/com/example/patienttracker/data/PatientRepository.kt:54-79 | Every decoded record has text fields that are trimmed and hold no `'\n'` or `'\r'`. |
| CsvDocument.SingleRecordRoundTrip | app/src/main/java/com/example/patienttracker/data/PatientRepository.kt:54-104 | For a record whose coordinates round-trip, writing it alone and reading it back gives it back if and only if its text fields are trimmed and hold no `'\n'` or `'\r'`. |
| RecordList.IndexOfFirst | app/src/main/java/com/example/patienttracker/data/PatientRepository.kt:36 | The result is -1 exactly when no record has the `bil`. Otherwise it is the position of the first record that has it. |
| RecordList.MaxBil | app/src/main/java/com/example/patienttracker/data/PatientRepository.kt:107 | `maxOfOrNull` is absent exactly for the empty list. Otherwise it is some record's `bil`, and no record has a larger one. |
| RecordList.NextBilFresh | app/src/main/java/com/example/patienttracker/data/PatientRepository.kt:106-107 | Below the top of the `Int` range, `nextBil` is the largest `bil` plus one (1 for an empty list) and exceeds every `bil` in the list. |
| RecordList.NextBilWraps | app/src/main/java/com/example/patienttracker/data/PatientRepository.kt:106-107 | When the largest `bil` is `Int.MAX_VALUE`, `nextBil` wraps to `Int.MIN_VALUE`. |
| RecordList.WithBilAppend | app/src/main/java/com/example/patienttracker/data/PatientRepository.kt:40 | The records with a given `bil` in a concatenation are those of each part, in order. |
| RecordList.UniqueIff | app/src/main/java/com/example/patienttracker/data/PatientRepository.kt:36-42 | No two positions share a `bil` if and only if, for every `bil`, at most one record has it. |
| RecordList.InsertByBil | app/src/main/java/com/example/patienttracker/data/PatientRepository.kt:42 | Inserting into a sorted list keeps it sorted and adds exactly that record. |
| RecordList.SortByBil | app/src/main/java/com/example/patienttracker/data/PatientRepository.kt:42 | `sortedBy { it.bil }` returns the same records, sorted by `bil`. |
| RecordList.SortStable | app/src/main/java/com/example/patienttracker/data/PatientRepository.kt:42 | The sort is stable: records with equal `bil` keep their relative order. |
| RecordList.SortSorted | app/src/main/java/com/example/patienttracker/data/PatientRepository.kt:42 | Sorting a list that is already sorted leaves it unchanged. |
| RecordList.SortAppendLargest | app/src/main/java/com/example/patienttracker/data/PatientRepository.kt:40-42 | A record appended with a `bil` above all others stays last after sorting. |
| RecordList.UpsertExisting | app/src/main/java/com/example/patienttracker/data/PatientRepository.kt:33-46 | When the `bil` is present, `addOrUpdate` keeps the length and sorts the list. The first record with that `bil` is replaced by the new one (the multiset changes by exactly that swap). Among the records with that `bil`, the new one takes the first place. |
| RecordList.UpsertNew | app/src/main/java/com/example/patienttracker/data/PatientRepository.kt:33-46 | When the `bil` is absent, the list grows by exactly the record renumbered to `nextBil`, and it is sorted. For every `bil`, the records with it are the old ones followed by the new one if it matches. |
| RecordList.UpsertNewLast | app/src/main/java/com/example/patienttracker/data/PatientRepository.kt:40-42 | Below the top of the `Int` range, the new `bil` is unused and the new record ends up last. |
| RecordList.UpsertNewSorted | app/src/main/java/com/example/patienttracker/data/PatientRepository.kt:40-42 | On an already sorted list that lacks the `bil`, below the top of the `Int` range, adding a record appends it with `bil` equal to the maximum plus one. |
| RecordList.UpsertKeepsUnique | app/src/main/java/com/example/patienttracker/data/PatientRepository.kt:33-46 | From a list with unique `bil`s, `addOrUpdate` keeps them unique exactly when the record replaces one with its `bil` or the `bil` from `nextBil` is unused. |
| RecordList.AppendTakenDuplicates | app/src/main/java/com/example/patienttracker/data/PatientRepository.kt:40-42 | A record with a new `bil` appended under a `nextBil` that some record already carries leaves two records with that `bil`. |
| RecordList.UpsertMembers | app/src/main/java/com/example/patienttracker/data/PatientRepository.kt:35-42 | Every record after `addOrUpdate` was already in the list or is the given record, possibly renumbered. |
| RecordList.Remove | app/src/main/java/com/example/patienttracker/data/PatientRepository.kt:49 | `filterNot` never makes the list longer. |
| RecordList.RemoveMembers | app/src/main/java/com/example/patienttracker/data/PatientRepository.kt:49 | A record remains after `delete` exactly when it was present and has a different `bil`. The list shrinks by the number of records with that `bil`. |
| RecordList.RemoveAbsent | app/src/main/java/com/example/patienttracker/data/PatientRepository.kt:49 | Deleting a `bil` that no record has changes nothing. |
| RecordList.RemoveAppend | app/src/main/java/com/example/patienttracker/data/PatientRepository.kt:49 | Deleting distributes over concatenation, so the survivors keep their order. |
| RecordList.RemoveWithBil | app/src/main/java/com/example/patienttracker/data/PatientRepository.kt:49 | After deletion, no record has the deleted `bil`, and the records of every other `bil` are unchanged. |
| RecordList.RemoveKeepsSorted | app/src/main/java/com/example/patienttracker/data/PatientRepository.kt:49 | Deleting keeps a sorted list sorted. |
| RecordList.RemoveKeepsUnique | app/src/main/java/com/example/patienttracker/data/PatientRepository.kt:49 | Deleting keeps `bil`s unique. |
| Repository.UpsertReloads | app/src/main/java/com/example/patienttracker/data/PatientRepository.kt:33-46 | After `addOrUpdate` on writable records, the written text reads back as the published list. |
| Repository.RemoveReloads | app/src/main/java/com/example/patienttracker/data/PatientRepository.kt:48-52 | After `delete` on writable records, the written text reads back as the published list. |
| Repository.PatientRepository.constructor | app/src/main/java/com/example/patienttracker/data/PatientRepository.kt:12-15 | A repository starts with an empty published list over the given storage file. |
| Repository.PatientRepository.Load | app/src/main/java/com/example/patienttracker/data/PatientRepository.kt:17-31 | An existing storage file is left as it is, and a missing one receives the asset. The published list is what that text decodes to, unsorted. |
| Repository.PatientRepository.AddOrUpdate | app/src/main/java/com/example/patienttracker/data/PatientRepository.kt:33-46 | The published list is `Upsert` of the old list and is sorted, and storage holds its encoding. Writable records read back as the list. Unique `bil`s stay unique below the top of the `Int` range, and in general exactly when the record replaces one or the `bil` from `nextBil` is unused. |
| Repository.PatientRepository.Delete | app/src/main/java/com/example/patienttracker/data/PatientRepository.kt:48-52 | The published list is the old list without that `bil`, and no record has it. Storage holds the encoding, which reads back as the list for writable records. Sortedness and uniqueness are preserved. |
| Repository.PatientRepository.SaveToDisk | app/src/main/java/com/example/patienttracker/data/PatientRepository.kt:81-104 | Storage holds the header and the records' lines, in list order. |
| Repository.PatientRepository.Persist | app/src/main/java/com/example/patienttracker/data/PatientRepository.kt:109-111 | Storage holds exactly the given contents. |

## Left out

- File and asset I/O: the storage file is modelled as the `storage` field (absent while the file does not exist), and the bundled asset as the `asset` constant. A missing asset, which throws in the app, is not modelled.
- `Dispatchers.IO` and coroutines: concurrent calls to `load`, `addOrUpdate` or `delete`, which in the app can interleave, are not modelled. Each method runs atomically.
- `StateFlow` observers: publication is the assignment to `patients`, and collectors are not modelled.
- Crash consistency: the app publishes the new list before the file is written, and `writeText` is not atomic. Partial writes are not modelled. Neither is a `writeText` that throws, which leaves the published list ahead of the file: `AddOrUpdate` and `Delete` always end with the file holding the list's encoding.
- `Double` formatting and parsing: coordinates are an abstract type. `toString` and `toDoubleOrNull` are the two functions of a `CoordFormat`. The round-trip results assume that a coordinate's text reads back as that coordinate.
- `toIntOrNull` also accepts non-ASCII decimal digits. The model accepts ASCII digits only, which is what `toString` writes.
- `String.trim` uses the JVM's whitespace set, which is modelled character by character for the BMP. Supplementary-plane characters are not considered.
- `PatientLocation.displayTitle` and the user-interface files are not part of this model.
- RecordList.NextBilFresh: assumes the largest `bil` is below `Int.MAX_VALUE`. At the maximum, `nextBil` wraps, which `NextBilWraps` states.
- CsvDocument.DecodeEncode: holds only for records whose text fields are trimmed and hold no `'\n'` or `'\r'`. The reader splits lines before it looks at quotes and trims every cell, so other records do not come back. For a record whose coordinates read back, `SingleRecordRoundTrip` shows the text-field condition is also necessary. The coordinate condition is only sufficient: a coordinate written with surrounding whitespace still comes back when the trimmed text parses to it.
