# Files dashboard: CSV parsing, formatting and the client store

This project models, in Dafny, the logic at the core of a small files
dashboard. A backend downloads CSV files and turns each into records
`{text, number, hex}`. A web client keeps the result in a Redux store and
shows it as one table.

- `js_values.dfy` (module `JsValues`): the JavaScript notions the code
  relies on. It has absent values (`Option`), a dynamically typed value
  (`Value`) and truthiness.
- `strings.dfy` (module `Strings`): the string built-ins used by that code.
  These are `split`, `trim` (with the ECMAScript white-space set),
  `parseInt(s, 10)` as a leading-prefix read, lower-casing and string
  comparison. Each comes with the lemmas the parser and the sort need.
- `csv_parser.dfy` (module `CsvParser`): `isValidHex`, `parseLine`,
  `parseCSV` and `processFiles` of the backend. A small writer side
  (`FormatLine`, `FormatLines`) states the round trips: a written row or
  file parses back to its records.
- `formatters.dfy` (module `Formatters`): `formatNumber` (integers, en-US
  grouping), `truncateHex`, `getErrorMessage` and `getTotalRows`.
- `files_slice.dfy` (module `FilesSlice`): the `files` store. It is a class
  `FilesStore` with the six fields of the state and one method per reducer
  case. Each method states the whole new state and that nothing else
  changes.
- `files_selectors.dfy` (module `FilesSelectors`): the selectors. The sort
  of `selectSortedData` is an insertion sort on a fresh array. It is proved
  to return a permutation of the flattened rows that is ordered by the
  comparator.

## Model

| member | source | states |
|---|---|---|
| CsvParser.IsValidHex | api/src/utils/csvParser.js:5-7 | the definition of `isValidHex`: a present, non-empty string of exactly 32 characters matched by the anchored pattern `[0-9a-fA-F]{32}` (characterised by IsValidHexSpec) |
| CsvParser.IsValidHexSpec | api/src/utils/csvParser.js:1-7 | a hex is valid exactly when it is present, 32 characters long and made only of `0-9a-fA-F`; absent values are rejected |
| CsvParser.MatchesHexRunSpec | api/src/utils/csvParser.js:3 | the anchored pattern of `count` hex digits matches exactly the strings of that length made only of hex digits |
| CsvParser.ParseLine | api/src/utils/csvParser.js:9-26 | an empty line is rejected; a line without exactly three commas (so not four fields) is rejected; every accepted record has a non-empty trimmed comma-free text and a valid hex |
| CsvParser.ParseLineFields | api/src/utils/csvParser.js:12-25 | a line is accepted if and only if it splits into four fields, all non-empty after trimming, the third has a leading integer and the fourth is a valid hex; the record is then the trimmed second field, that integer and the trimmed fourth field, and the first field is dropped |
| CsvParser.ParseLineOfFormatLine | api/src/utils/csvParser.js:9-26 | round trip: the row `file,text,number,hex` written for any valid record parses back to that record |
| CsvParser.NonBlankLines | api/src/utils/csvParser.js:31-34 | trimming and dropping blank lines gives no more lines than before, each non-empty and trimmed |
| CsvParser.NonBlankLinesSingle | api/src/utils/csvParser.js:33-34 | a blank line is dropped and any other line is kept, trimmed |
| CsvParser.NonBlankLinesAppend | api/src/utils/csvParser.js:33-34 | lines are trimmed and dropped one by one, in order: the operation distributes over concatenation |
| CsvParser.ParseRows | api/src/utils/csvParser.js:38-40 | keeping the lines that parse gives at most one record per line |
| CsvParser.ParseRowsValid | api/src/utils/csvParser.js:38-40 | every record kept is valid: non-empty trimmed comma-free text and a valid hex |
| CsvParser.ParseRowsAppend | api/src/utils/csvParser.js:38-40 | rows keep their order and are kept or dropped one by one: parsing distributes over concatenation |
| CsvParser.ParseCSV | api/src/utils/csvParser.js:28-41 | absent or empty content gives no records; fewer than two non-blank lines give none; otherwise at most one record per non-blank line after the header, each valid |
| CsvParser.ParseCsvOfLines | api/src/utils/csvParser.js:28-41 | a file made of a header and clean lines parses to exactly the parsed lines after the header, in order |
| CsvParser.ParseCsvHeaderOnly | api/src/utils/csvParser.js:36 | content without a newline (a header only) gives no records |
| CsvParser.ParseCsvHeaderNewline | api/test/api.test.js:128-134 | a header followed by a single newline gives no records |
| CsvParser.ParseCsvOfAnyLines | api/src/utils/csvParser.js:28-41 | a non-blank header followed by any lines parses to the records of the lines left after trimming and dropping blank ones, in order |
| CsvParser.ParseRowsOfFormatted | api/src/utils/csvParser.js:38-40 | written rows parse back to their records, in order |
| CsvParser.ParseCsvRoundTrip | api/src/utils/csvParser.js:28-41 | a header followed by N written rows parses to exactly those N records, in order |
| CsvParser.ParseEach | api/src/utils/csvParser.js:46-49 | one record per file, in order, holding the file's name and the parse of its content |
| CsvParser.ProcessFiles | api/src/utils/csvParser.js:43-50 | a non-array gives `[]`; otherwise the output is as long as the input, entry i holds file i's name and the parse of its content, and every line in it is valid |
| Strings.Split | api/src/utils/csvParser.js:12 | splitting yields one more part than there are separators, and no part holds a separator |
| Strings.SplitAt | api/src/utils/csvParser.js:32 | splitting `a + sep + b` is splitting `a` followed by splitting `b` |
| Strings.SplitJoin | api/src/utils/csvParser.js:12 | joining parts without separators and splitting again gives the parts back |
| Strings.JoinSplit | api/src/utils/csvParser.js:12 | splitting and joining again gives the string back |
| Strings.TrimStart | api/src/utils/csvParser.js:12 | the result is a suffix that does not start with white space, and only white space was removed |
| Strings.TrimEnd | api/src/utils/csvParser.js:12 | the result is a prefix that does not end with white space, and only white space was removed |
| Strings.Trim | api/src/utils/csvParser.js:33 | the result neither starts nor ends with white space, and a trimmed string is left as it is |
| Strings.TrimInfix | api/src/utils/csvParser.js:33 | trimming keeps a contiguous piece `s[lo..hi]` of its input and removes only white space before `lo` and after `hi` |
| Strings.TrimEmpty | api/src/utils/csvParser.js:33-34 | trimming gives the empty string exactly for all-white-space input, so the blank-line filter drops exactly those lines |
| Strings.TrimKeepsAbsent | api/src/utils/csvParser.js:12 | trimming a field adds no character, so a comma-free piece stays comma-free |
| Strings.DigitPrefix | api/src/utils/csvParser.js:20 | the longest prefix made of decimal digits |
| Strings.ParseInt | api/src/utils/csvParser.js:20-21 | the definition of `parseInt(s, 10)`: leading white space skipped, an optional `-` or `+`, then the value of the longest run of decimal digits, negated after `-`; no digit there gives NaN (`None`) |
| Strings.ParseIntOfIntToString | api/src/utils/csvParser.js:20-21 | `parseInt` reads back any integer written in decimal, whatever non-digit text follows (so `"123abc"` gives 123) |
| Strings.ParseIntNaN | api/src/utils/csvParser.js:20-21 | `parseInt` gives NaN exactly when no digit follows the leading white space and optional sign |
| Strings.NatToDigits | frontend/src/utils/formatters.js:8 | the decimal digits of a natural number, without a leading zero, whose value is that number |
| Strings.ToLower | frontend/src/store/selectors/filesSelectors.js:79-80 | lower-casing keeps the length, maps each upper-case ASCII letter to its lower-case letter (code point plus 32), keeps every other character and leaves no upper-case letter behind |
| Strings.ToLowerIgnoresCase | frontend/src/store/selectors/filesSelectors.js:79-80 | two strings have the same lower-case form exactly when they differ only in the case of their ASCII letters |
| Strings.CompareStrings | frontend/src/store/selectors/filesSelectors.js:81-83 | the comparison gives -1, 0 or 1, and 0 exactly for equal strings |
| Strings.CompareStringsFlip | frontend/src/store/selectors/filesSelectors.js:81-83 | swapping the operands negates the comparison |
| Strings.CompareStringsTransitive | frontend/src/store/selectors/filesSelectors.js:81-83 | the comparison is transitive |
| Formatters.GroupDigits | frontend/src/utils/formatters.js:8 | grouping adds one separator per full group of three after the first and keeps the leading digit |
| Formatters.StripGroupDigits | frontend/src/utils/formatters.js:8 | removing the separators from grouped digits gives the digits back |
| Formatters.GroupDigitsWellGrouped | frontend/src/utils/formatters.js:8 | grouped digits split on `,` into a first group of one to three digits and later groups of exactly three |
| Formatters.FormatNumber | frontend/src/utils/formatters.js:6-9 | a non-number is returned unchanged; a number becomes a non-empty string that starts with `-` exactly when it is negative |
| Formatters.FormatNumberWellGrouped | frontend/src/utils/formatters.js:6-9 | after its sign, the rendering of every integer is well grouped |
| Formatters.FormatNumberReadsBack | frontend/src/utils/formatters.js:6-9 | the rendering without its separators is exactly the decimal text of the integer (sign, no leading zero) and reads back as that integer |
| Formatters.FormatNumberSmall | frontend/src/utils/formatters.js:6-9 | integers below a thousand in size are rendered without separators |
| Formatters.FormatNumberThousand | frontend/src/utils/formatters.test.js:6 | 1000 is rendered `1,000` |
| Formatters.FormatNumberExample | frontend/src/utils/formatters.test.js:7 | 64075909 is rendered `64,075,909` |
| Formatters.TruncateHex | frontend/src/utils/formatters.js:17-20 | a falsy value or a non-string is returned unchanged, and so is a string no longer than the limit; a longer one becomes its first `length` characters followed by `...`, `length + 3` characters in all |
| Formatters.TruncateHexIdempotent | frontend/src/utils/formatters.js:17-20 | truncating twice with the same limit is truncating once |
| Formatters.TruncateHexExamples | frontend/src/utils/formatters.test.js:16-31 | the long hex is cut to `70ad29aacf0b...`; the short hex, `null` and `""` are kept |
| Formatters.GetErrorMessage | frontend/src/utils/formatters.js:27-31 | a string is returned as it is; otherwise an object's truthy `message`; otherwise `An unexpected error occurred` |
| Formatters.GetErrorMessageTruthy | frontend/src/utils/formatters.js:27-31 | the message is falsy only when the error was the empty string |
| Formatters.GetErrorMessageOfError | frontend/src/utils/formatters.test.js:34-45 | an error with a message reports it; an object without one gets the generic message |
| Formatters.LineCount | frontend/src/utils/formatters.js:40 | the definition of `file.lines?.length` falling back to 0: the number of lines when `lines` is present, 0 otherwise |
| Formatters.SumRows | frontend/src/utils/formatters.js:40 | the total of no files is 0 |
| Formatters.GetTotalRows | frontend/src/utils/formatters.js:38-41 | a non-array counts 0; an array counts the sum of its files' line counts |
| Formatters.SumRowsAppend | frontend/src/utils/formatters.js:40 | the total over two lists of files is the sum of their totals |
| Formatters.SumRowsBounds | frontend/src/utils/formatters.js:40 | every file's line count is at most the total |
| Formatters.SumRowsZero | frontend/src/utils/formatters.js:40 | the total is 0 exactly when no file has a line, a missing `lines` counting 0 |
| Formatters.GetTotalRowsExamples | frontend/src/utils/formatters.test.js:48-64 | `null` and `[]` count 0; files of 3 and 2 lines count 5 |
| FilesSlice.RejectionMessage | frontend/src/store/slices/filesSlice.js:74-87 | a rejected request records its payload when that is a non-empty string, otherwise the fallback; never the empty string |
| FilesSlice.InitialStateIsMeaningful | frontend/src/store/slices/filesSlice.js:5-15 | the initial state has empty data, an empty list, no selected file, status idle, no sort key, ascending direction and no error |
| FilesSlice.FilesStore.constructor | frontend/src/store/slices/filesSlice.js:5-15 | a new store holds the initial state |
| FilesSlice.FilesStore.SetSelectedFile | frontend/src/store/slices/filesSlice.js:51-53 | only the selected file changes |
| FilesSlice.FilesStore.SetSortConfig | frontend/src/store/slices/filesSlice.js:54-56 | only the sort settings change |
| FilesSlice.FilesStore.ClearError | frontend/src/store/slices/filesSlice.js:57-59 | only the error changes, to none |
| FilesSlice.FilesStore.ResetFiles | frontend/src/store/slices/filesSlice.js:60 | the store holds the initial state, whatever it held before |
| FilesSlice.FilesStore.FetchFilesDataPending | frontend/src/store/slices/filesSlice.js:65-68 | status becomes loading and the error none; nothing else changes |
| FilesSlice.FilesStore.FetchFilesDataFulfilled | frontend/src/store/slices/filesSlice.js:69-73 | status becomes succeeded, the data the payload, the error none; nothing else changes |
| FilesSlice.FilesStore.FetchFilesDataRejected | frontend/src/store/slices/filesSlice.js:74-77 | status becomes failed and the error the payload or `Failed to fetch files data`; the data and the rest stay |
| FilesSlice.FilesStore.FetchFilesListPending | frontend/src/store/slices/filesSlice.js:79-81 | only the error changes, to none; the status stays |
| FilesSlice.FilesStore.FetchFilesListFulfilled | frontend/src/store/slices/filesSlice.js:82-84 | only the list changes, to the payload |
| FilesSlice.FilesStore.FetchFilesListRejected | frontend/src/store/slices/filesSlice.js:85-87 | only the error changes, to the payload or `Failed to fetch files list`; the status stays |
| FilesSlice.ResetTwice | frontend/src/store/slices/filesSlice.js:60 | resetting is idempotent |
| FilesSlice.LoadThenFail | frontend/src/store/slices/filesSlice.js:65-77 | a data request that starts and fails keeps the data, ends failed and leaves a non-empty error |
| FilesSlice.ListRequestsKeepStatus | frontend/src/store/slices/filesSlice.js:79-87 | the three list cases never change the status |
| FilesSelectors.SelectFilesLoading | frontend/src/store/selectors/filesSelectors.js:19 | the definition of `selectFilesLoading`: the status is loading |
| FilesSelectors.SelectHasError | frontend/src/store/selectors/filesSelectors.js:21 | the definition of `selectHasError`: the status is failed |
| FilesSelectors.StatusFlagsExclusive | frontend/src/store/selectors/filesSelectors.js:19-21 | loading and has-error never hold together, and neither holds when idle or succeeded |
| FilesSelectors.SelectIsEmpty | frontend/src/store/selectors/filesSelectors.js:23-26 | the store is empty exactly when the data is not an array or no file has a line |
| FilesSelectors.SelectTotalRows | frontend/src/store/selectors/filesSelectors.js:28-31 | the total is `getTotalRows` of the data: no data counts 0, and every file's lines are counted in the total |
| FilesSelectors.IsEmptyIffNoRows | frontend/src/store/selectors/filesSelectors.js:23-31 | the store is empty exactly when the total row count is 0 |
| FilesSelectors.SelectFileCount | frontend/src/store/selectors/filesSelectors.js:41-44 | the length of an array, 0 otherwise |
| FilesSelectors.FilterByFile | frontend/src/store/selectors/filesSelectors.js:37 | the result holds only files with the selected name and is no longer than the input |
| FilesSelectors.FilterByFileCount | frontend/src/store/selectors/filesSelectors.js:37 | every file with the selected name is kept as many times as the input holds it, and no other file is kept |
| FilesSelectors.FilterByFileAppend | frontend/src/store/selectors/filesSelectors.js:37 | filtering keeps the order: it distributes over concatenation |
| FilesSelectors.FilterByFileIdempotent | frontend/src/store/selectors/filesSelectors.js:37 | filtering twice by the same name is filtering once |
| FilesSelectors.FilterRowsAtMost | frontend/src/store/selectors/filesSelectors.js:37 | filtering never adds rows |
| FilesSelectors.SelectFilteredData | frontend/src/store/selectors/filesSelectors.js:33-39 | without a selected file, or with non-array data, the data is returned as it is; otherwise the files with the selected name |
| FilesSelectors.FilteredDataIsSmaller | frontend/src/store/selectors/filesSelectors.js:33-44 | the filtered data has no more files and no more rows than the data |
| FilesSelectors.RowsOf | frontend/src/store/selectors/filesSelectors.js:57-62 | one row per line, in order, carrying the file's name and the line's fields |
| Formatters.SumRowsCons | frontend/src/utils/formatters.js:40 | the total of a file followed by others is its line count plus theirs |
| FilesSelectors.Flatten | frontend/src/store/selectors/filesSelectors.js:56-63 | the flattened rows number exactly the total rows |
| FilesSelectors.FlattenAppend | frontend/src/store/selectors/filesSelectors.js:56-63 | flattening keeps the order of the files: it distributes over concatenation |
| FilesSelectors.FlattenProvenance | frontend/src/store/selectors/filesSelectors.js:56-63 | every flattened row is a line of some file and carries that file's name |
| FilesSelectors.Compare | frontend/src/store/selectors/filesSelectors.js:69-97 | on the number column a row stands before another exactly when its number is not larger (`asc`) or not smaller (`desc`); on a text column two rows tie exactly when their lower-cased texts are equal |
| FilesSelectors.CompareIgnoresCase | frontend/src/store/selectors/filesSelectors.js:79-83 | on a text column the comparator ties exactly the rows whose texts are equal up to ASCII case |
| FilesSelectors.InOrderTotal | frontend/src/store/selectors/filesSelectors.js:69-97 | any two rows are in order one way or the other under the comparator |
| FilesSelectors.InOrderTransitive | frontend/src/store/selectors/filesSelectors.js:69-97 | the order of the comparator is transitive |
| FilesSelectors.AdjacentSortedIsSorted | frontend/src/store/selectors/filesSelectors.js:69-97 | rows whose neighbours are in order are in order pairwise |
| FilesSelectors.SortedMeaning | frontend/src/store/selectors/filesSelectors.js:77-91 | in sorted rows numbers are non-decreasing under `asc` and non-increasing under `desc`, and texts are in case-insensitive order, reversed under `desc` |
| FilesSelectors.InsertAt | frontend/src/store/selectors/filesSelectors.js:69 | one insertion step only reorders the first `i + 1` rows (same multiset, later rows untouched) and leaves them in order |
| FilesSelectors.SortRows | frontend/src/store/selectors/filesSelectors.js:69-97 | the sorted copy is a permutation of the rows, and every earlier row is in order with every later one |
| FilesSelectors.SelectSortedData | frontend/src/store/selectors/filesSelectors.js:50-100 | non-array or empty data gives no rows; without a key the flattened rows in input order; with a key a sorted permutation of them; always as many rows as the total |

## Left out

- `api/src/services/externalApi.js`, `api/src/routes/files.js`, `api/src/server.js` and `api/src/index.js` are not part of this model: they are HTTP requests, timeouts, concurrency and routing.
- `frontend/src/services/apiService.js`, the `createAsyncThunk` bodies of `filesSlice.js` and the React components are not part of this model: they are network and UI plumbing. Only the reducer cases the thunks trigger are modelled.
- The memoisation of `createSelector` is left out; each selector is a plain function of the state.
- Strings.CompareStrings: `localeCompare` is modelled as code-point lexicographic order (a total order), not the locale's collation.
- Strings.ToLower: only ASCII letters are lower-cased.
- Strings.ParseInt: exact on unbounded integers; the floating-point rounding of very long digit strings is not modelled, and `parseInt("-0")`, which is `-0` in JavaScript, gives 0.
- Formatters.TruncateHex: strings are sequences of Unicode code points, while JavaScript's `length` and `substring` count UTF-16 code units; for characters outside the Basic Multilingual Plane the length test and the cut differ (JavaScript can cut a surrogate pair in half). Hex strings are ASCII, where the two agree.
- Formatters.FormatNumber: integers only; fractional numbers, `NaN`, `Infinity` and `-0` are not modelled.
- CsvParser.ParseLine: takes strings only; `parseCSV` only ever passes strings.
- CsvParser.ParseCSV: content that is present but not a string is modelled as absent (`None`), as the source returns `[]` for both.
- Formatters.GetTotalRows: the entries are file objects; a `null` entry, on which the source throws, is not modelled, and `lines` is either an array or missing.
- FilesSlice.FilesStore.FetchFilesDataFulfilled: a payload that is not an array is modelled as `None`.
- FilesSlice.FilesStore.FetchFilesListFulfilled: the payload is a list of names; other values are not modelled.
- FilesSlice.FilesStore.SetSortConfig: the key is one of the four row columns or none; other keys are not modelled.
- FilesSelectors.SelectSortedData: requires every file to have `lines`; the source throws a `TypeError` otherwise.
- FilesSelectors.Compare: the `null` and default branches of the comparator cannot be reached with typed rows and are not modelled.
- FilesSelectors.SortRows: the stability of `Array.prototype.sort` is not stated; the contract says permutation and order only.
