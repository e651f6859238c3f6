# csv-sploiter core, modelled in Dafny

csv-sploiter is a browser tool. It loads CSV files as named *indexes*, searches their records in a
Splunk-like way (`index=<name> <text>` or free text), shows per-column value statistics, pages
through the results and exports them back to CSV. This project models that core in Dafny and
proves properties of it:

- `Text` (text.dfy): JavaScript `trim` over the ECMAScript white-space and line-terminator set,
  ASCII `toLowerCase`, `includes` and `join`.
- `Ordered` (ordered.dfy): a JavaScript object with string keys (`Record<string, T>`). It is an
  insertion-ordered sequence of key/value pairs with lookup (`obj[k]`), assignment (`obj[k] = v`,
  `{...obj, [k]: v}`) and key removal (`const {[k]: _, ...rest} = obj`). `Dedup` models a
  JavaScript `Set` built by successive `add`s.
- `IndexNames` (index_names.dfy): `normalizeIndexName` and its table of 21 known index spellings.
- `CsvParse` (csv_parse.dfy): `parseCsv`, covering line splitting on `\r?\n`, dropping blank lines,
  the quote-aware `parseRow` scanner (a `while` loop proved against a recursive scanner function)
  and the construction of each record object (a loop proved against its fold).
- `FieldStats` (fields.dfy): `extractFields`, covering the per-column value counts (a loop), the
  descending stable sort by count and the top-10 cut.
- `Query` (query.dfy): `getSearchResults`, covering the three query modes. This includes the
  `/^index=(\S+)\s*(.*)?$/i` match, stated both ways.
- `CsvStore` (store.dfy): the store state (`indexes`, `searchQuery`, `currentPage`, `pageSize`) as
  a class whose methods are the store's actions.
- `Export` (export.dfy): the CSV export of `SearchBar`, and its round trip through the store's own
  row parser.
- `Records` (records.dfy) and `ResultsView` (results_view.dfy): the shared entities, the results
  table's column union, pagination, index count and navigation buttons.

The model follows the code on file-name case. Ingesting `a.csv` and then `A.CSV` yields two
indexes, `a` and `A`, not one. The fallback name keeps the case of the file
name, and only names found in the known-index table are case-folded
(`IndexNames.SameIndexIff`).

## Model

| member | source | states |
|---|---|---|
| Text.TrimStart | src/lib/csv-store.ts:98 | the result is a suffix of the input, every removed character is white space, and the result does not start with white space |
| Text.TrimEnd | src/lib/csv-store.ts:105 | the result is a prefix of the input, every removed character is white space, and the result does not end with white space |
| Text.Trim | src/lib/csv-store.ts:170 | the trimmed query has no white space at either end |
| Text.TrimOfTrimmed | src/lib/csv-store.ts:183 | trimming a string with no white space at either end returns it unchanged |
| Text.TrimEmptyIffBlank | src/lib/csv-store.ts:74 | a line trims to "" exactly when it consists only of white space |
| Text.Lower | src/lib/csv-store.ts:203 | lower-casing keeps the length and maps every character through ASCII case folding |
| Text.LowerIdempotent | src/lib/csv-store.ts:182-185 | lower-casing twice equals lower-casing once |
| Text.ContainsIffOccurs | src/lib/csv-store.ts:195 | `includes` holds exactly when the term occurs at some position |
| Text.JoinCons | src/components/SearchBar.tsx:34 | joining x followed by the other parts puts the separator after x, then the join of the rest |
| Ordered.Keys | src/lib/csv-store.ts:220 | the keys are listed in insertion order, one per entry |
| Ordered.Values | src/lib/csv-store.ts:171 | the values are listed in insertion order, one per entry |
| Ordered.GetMembers | src/lib/csv-store.ts:215-216 | a lookup is undefined exactly when the key is absent, and a found value is stored under that key |
| Ordered.PutKeys | src/lib/csv-store.ts:149-152 | assigning an existing key keeps the key order; a new key is appended last; no other entry appears |
| Ordered.PutGet | src/lib/csv-store.ts:151 | after assignment the key maps to the new value and every other key keeps its old lookup |
| Ordered.PutTwice | src/lib/csv-store.ts:151 | assigning the same key and value twice is the same as assigning once |
| Ordered.PutDistinct | src/lib/csv-store.ts:151 | assignment keeps keys distinct |
| Ordered.Remove | src/lib/csv-store.ts:158 | the remaining keys are the old keys without the removed one, in order, and no entry is invented |
| Ordered.RemoveGet | src/lib/csv-store.ts:158 | after removal the key is undefined and every other key keeps its lookup |
| Ordered.RemoveAbsent | src/lib/csv-store.ts:158 | removing an absent key leaves the object unchanged |
| Ordered.Dedup | src/components/ResultsTable.tsx:27-29 | the set's elements are distinct and are exactly the elements added |
| Ordered.DedupFirstSeen | src/components/ResultsTable.tsx:27-29 | the set iterates its elements in the order of their first addition |
| Ordered.DedupSize | src/components/ResultsTable.tsx:38 | the set's size is the number of distinct elements added |
| IndexNames.LookupKnown | src/lib/csv-store.ts:4-26 | a hit is a known index name whose lower case is the key; a miss means no known name lower-cases to the key |
| IndexNames.StripCsvExtension | src/lib/csv-store.ts:68 | a trailing ".csv" in any case is removed, and any other name is left unchanged |
| IndexNames.KeepLettersAndDigits | src/lib/csv-store.ts:68 | the result has only ASCII letters and digits and is no longer than the input |
| IndexNames.KeepOne | src/lib/csv-store.ts:68 | one character is kept exactly when it is an ASCII letter or digit |
| IndexNames.KeepLettersAndDigitsAppend | src/lib/csv-store.ts:68 | the replacement works character by character, so every ASCII letter and digit is kept, in order |
| IndexNames.KeepLettersAndDigitsOfClean | src/lib/csv-store.ts:68 | a string of letters and digits passes through unchanged |
| IndexNames.NormalizeShape | src/lib/csv-store.ts:67-71 | the index name is alphanumeric, equals the cleaned base case-insensitively, and differs from the base only through the known-index table |
| IndexNames.BaseNameOfClean | src/lib/csv-store.ts:68 | an alphanumeric name is its own base |
| IndexNames.NormalizeIdempotent | src/lib/csv-store.ts:67-71 | normalizing an index name again gives the same name |
| IndexNames.SameIndexIff | src/lib/csv-store.ts:67-71 | two file names share an index exactly when their bases are equal, or equal up to case and known to the table |
| CsvParse.DropCR | src/lib/csv-store.ts:74 | at most one trailing carriage return is removed from a line |
| CsvParse.SplitLines | src/lib/csv-store.ts:74 | splitting gives at least one line and no line contains a newline |
| CsvParse.JoinSplitLines | src/lib/csv-store.ts:74 | for text without carriage returns, joining the lines with newlines gives the text back |
| CsvParse.SplitJoinedLines | src/lib/csv-store.ts:74 | splitting lines that were joined with newlines gives those lines back |
| CsvParse.SplitCrlfJoinedLines | src/lib/csv-store.ts:74 | lines joined with `\r\n` split back into exactly those lines, so the `\r` of each separator is dropped and nothing else |
| CsvParse.NonBlankMembers | src/lib/csv-store.ts:74 | a line is kept exactly when it does not trim to "", and nothing is added |
| CsvParse.NonBlankCons | src/lib/csv-store.ts:74 | the filter looks at each line in turn, keeping it in place exactly when it is not blank |
| CsvParse.NonBlankAppend | src/lib/csv-store.ts:74 | filtering two runs of lines is filtering each, so kept lines keep their order and their repeats |
| CsvParse.NonBlankOfBlank | src/lib/csv-store.ts:74 | a run of blank lines leaves nothing |
| CsvParse.FirstNonBlank | src/lib/csv-store.ts:74-75 | the retained lines start with the first non-blank line, followed by the non-blank lines after it |
| CsvParse.ParseOfRetained | src/lib/csv-store.ts:109-110 | the first retained line is the header and the rest are the record lines |
| CsvParse.HeaderIsFirstNonBlank | src/lib/csv-store.ts:74-117 | the header is the first non-blank line of the text, and the records come from the non-blank lines after it, in order and with repeats |
| CsvParse.TrimAll | src/lib/csv-store.ts:98 | every field pushed is the trimmed text collected for it |
| CsvParse.TrimAllSnoc | src/lib/csv-store.ts:105 | pushing one more trimmed field extends the trimmed list by that field |
| CsvParse.RowFields | src/lib/csv-store.ts:77-107 | every field of a parsed row is trimmed |
| CsvParse.ParseRow | src/lib/csv-store.ts:77-107 | the loop returns the scanner's fields, one more than the number of commas outside quotes |
| CsvParse.FieldCount | src/lib/csv-store.ts:81-105 | a row yields one field per comma outside quotes, plus one |
| CsvParse.UnterminatedQuote | src/lib/csv-store.ts:83-93 | after a quote that is never closed, the rest of the line, commas included, belongs to the last field |
| CsvParse.AssignedKeys | src/lib/csv-store.ts:113-115 | a record's keys are the distinct column names in first-seen order |
| CsvParse.AssignedLast | src/lib/csv-store.ts:113-115 | a repeated column name holds the value of its last occurrence |
| CsvParse.AssignedStep | src/lib/csv-store.ts:114 | each step assigns the i-th value, or "" when the line has fewer fields |
| CsvParse.RowShape | src/lib/csv-store.ts:110-117 | a record has distinct keys drawn from the header, each key holds the value at its last header position, and other names are undefined |
| CsvParse.BuildRow | src/lib/csv-store.ts:112-116 | the loop builds exactly the record the assignment fold specifies |
| CsvParse.ReadRecord | src/lib/csv-store.ts:110-116 | a data line becomes the record built from its parsed fields |
| CsvParse.RowsOf | src/lib/csv-store.ts:110-117 | there is one record per data line, in order, each built from that line's fields |
| CsvParse.RowsOfSnoc | src/lib/csv-store.ts:110 | one more data line adds its record at the end |
| CsvParse.ParseShape | src/lib/csv-store.ts:73-120 | the table is empty exactly when no line is retained; otherwise the header has at least one column and there is one record per later line, each keyed by the header's distinct names |
| CsvParse.ParseCsv | src/lib/csv-store.ts:73-120 | the parsing loop computes the table that the parser specification defines |
| FieldStats.NonEmptyCellsMembers | src/lib/csv-store.ts:125-129 | a value is counted exactly when it is non-empty and occurs in the column |
| FieldStats.TallyKeys | src/lib/csv-store.ts:124-130 | the count object's keys are the column's distinct non-empty values in first-seen order |
| FieldStats.TallyGet | src/lib/csv-store.ts:124-130 | each non-empty value's count is its number of occurrences in the column |
| FieldStats.BumpGet | src/lib/csv-store.ts:128 | one increment raises only the seen value's count, by one |
| FieldStats.TallyCounts | src/lib/csv-store.ts:124-130 | the counts have distinct keys in first-seen order and are exact for every non-empty value |
| FieldStats.TallyEntries | src/lib/csv-store.ts:124-130 | every entry is a non-empty value with its exact positive count, and every occurring non-empty value has an entry |
| FieldStats.Insert | src/lib/csv-store.ts:132 | inserting adds the entry and keeps all others |
| FieldStats.SortByCount | src/lib/csv-store.ts:131-132 | sorting is a permutation of the entries into non-increasing count order |
| FieldStats.InsertSorted | src/lib/csv-store.ts:132 | inserting into a non-increasing list keeps it non-increasing |
| FieldStats.SortStable | src/lib/csv-store.ts:132 | entries with equal counts keep their relative order, as the stable `Array.prototype.sort` requires |
| FieldStats.SortDistinct | src/lib/csv-store.ts:131-132 | sorting keeps values distinct |
| FieldStats.SortMembers | src/lib/csv-store.ts:131-132 | sorting keeps exactly the same entries |
| FieldStats.Head | src/lib/csv-store.ts:133 | at most 10 entries are kept, from the front, and all are kept when there are fewer than 10 |
| FieldStats.AsFieldValues | src/lib/csv-store.ts:134 | each kept entry becomes a `{value, count}` pair, in order |
| FieldStats.SortedTally | src/lib/csv-store.ts:124-132 | the sorted counts are exact, complete and distinct |
| FieldStats.TopExact | src/lib/csv-store.ts:131-134 | every top value is non-empty, with its exact positive count |
| FieldStats.TopOrdered | src/lib/csv-store.ts:131-134 | top values are distinct and listed by non-increasing count |
| FieldStats.TopCutoff | src/lib/csv-store.ts:131-134 | a value missing from the top list only happens when the list is full, and that value occurs no more often than the tenth |
| FieldStats.TopOfCounted | src/lib/csv-store.ts:131-134 | cutting sorted exact counts gives a valid top-values list |
| FieldStats.TopValuesSpec | src/lib/csv-store.ts:122-137 | every column's `topValues` is a valid top-10 list for that column |
| FieldStats.TallyStep | src/lib/csv-store.ts:125-129 | each row leaves the counts unchanged when its cell is empty and otherwise increments that value's count |
| FieldStats.CountValues | src/lib/csv-store.ts:124-130 | the counting loop gives the specified counts, with distinct keys and exact counts |
| FieldStats.FieldsOf | src/lib/csv-store.ts:122-136 | there is one field description per column, in column order |
| FieldStats.ExtractFields | src/lib/csv-store.ts:122-137 | the loop gives one description per column, named after the column, with at most 10 top values |
| Records.CellShape | src/components/ResultsTable.tsx:119 | a missing column renders as "" and a present one renders the stored value |
| Records.AllKeysMembers | src/components/ResultsTable.tsx:28 | a key is collected exactly when some result row has it |
| Records.AllKeysSnoc | src/components/ResultsTable.tsx:28 | each result adds its row's keys after those already collected |
| Records.KeyUnionShape | src/components/ResultsTable.tsx:26-30 | the column union is distinct, holds exactly the keys of some row, and is in first-seen order |
| Records.AddKeys | src/components/SearchBar.tsx:16 | adding a row's keys to the set gives the set of everything added so far |
| Records.CollectKeys | src/components/ResultsTable.tsx:26-30 | the loop computes the column union, which is distinct, complete and in first-seen order |
| Query.TagRows | src/lib/csv-store.ts:175 | each row is tagged with its index name, in order |
| Query.TagRowsMembers | src/lib/csv-store.ts:175 | a tagged result belongs exactly when it has this index's name and one of its rows |
| Query.MatchingRows | src/lib/csv-store.ts:193-198 | a row is kept exactly when a value or a column name contains the term |
| Query.Named | src/lib/csv-store.ts:184-186 | an index is selected exactly when its lower-cased name equals the target |
| Query.NamedNone | src/lib/csv-store.ts:184-186 | no index is selected when no name matches the target |
| Query.NonWhitespaceRun | src/lib/csv-store.ts:180 | `\S+` consumes the longest run of non-white-space characters |
| Query.IndexFilterSound | src/lib/csv-store.ts:180 | a match splits the query into "index=" in any case, a non-empty token without white space, white space, and a rest without line terminators that starts with no white space |
| Query.IndexFilterComplete | src/lib/csv-store.ts:180 | every query of that shape matches |
| Query.GreedyCoversSplit | src/lib/csv-store.ts:180 | the greedy token and white-space runs reach at least as far as any other split |
| Query.AllRowsMembers | src/lib/csv-store.ts:173-177 | an empty query returns exactly the rows of all indexes, each tagged with its index |
| Query.FilteredRowsMembers | src/lib/csv-store.ts:202-211 | a filtered result is exactly a row of some index in which a value or a column name contains the term |
| Query.ColumnHitKeepsAll | src/lib/csv-store.ts:196 | when a column name contains the term, every row of that index is returned |
| Query.MatchingRowsSubseq | src/lib/csv-store.ts:193-198 | filtering keeps rows in their original order |
| Query.FilteredRowsSubseq | src/lib/csv-store.ts:204-211 | free-text results are an order-preserving selection of all rows |
| Query.NamedSubseq | src/lib/csv-store.ts:184-190 | index-mode results are an order-preserving selection of all rows |
| Query.SubseqTrans | src/lib/csv-store.ts:192-199 | a selection of a selection is a selection of the original |
| Query.SearchSubseq | src/lib/csv-store.ts:168-211 | every query returns an order-preserving selection of all rows |
| Query.SearchMembers | src/lib/csv-store.ts:168-211 | a result is returned exactly when it is a row of some index that the query's mode selects |
| Query.TagRowsCount | src/lib/csv-store.ts:175 | tagging keeps every copy of every row |
| Query.MatchingRowsCount | src/lib/csv-store.ts:193-198 | the filter keeps every copy of a matching row and no copy of any other |
| Query.TaggedMatchCount | src/lib/csv-store.ts:192-198 | an index contributes every copy of each matching row, tagged with its name |
| Query.AllRowsCount | src/lib/csv-store.ts:173-177 | an empty query returns each row as many times as the indexes hold it |
| Query.FreeTextCount | src/lib/csv-store.ts:202-211 | a free-text query returns every copy of every matching row |
| Query.SelectsNamed | src/lib/csv-store.ts:181-186 | in `index=` mode a row is selected exactly when its index is named and it matches any remainder |
| Query.NamedAllCount | src/lib/csv-store.ts:187-190 | `index=<name>` alone returns every copy of every row of the named indexes |
| Query.NamedFilteredCount | src/lib/csv-store.ts:192-199 | `index=<name> <text>` returns every copy of every matching row of the named indexes |
| Query.SearchCount | src/lib/csv-store.ts:168-211 | every mode returns each selected row once per copy of it in the indexes, so identical records are all returned |
| Query.NoSuchIndex | src/lib/csv-store.ts:182-191 | an `index=` query naming no loaded index returns nothing |
| CsvStore.IndexOf | src/lib/csv-store.ts:146-151 | the stored index carries the normalized name and the original file name |
| CsvStore.IngestGet | src/lib/csv-store.ts:145-154 | after ingest the normalized name holds the new index, every other name is unchanged, and a new name is appended |
| CsvStore.IngestTwice | src/lib/csv-store.ts:145-154 | ingesting the same file twice equals ingesting it once |
| CsvStore.IngestWellFormed | src/lib/csv-store.ts:145-154 | ingest keeps keys distinct and each index stored under its own name |
| CsvStore.RemoveWellFormed | src/lib/csv-store.ts:156-161 | removal keeps keys distinct and each index stored under its own name |
| CsvStore.Store.constructor | src/lib/csv-store.ts:139-143 | the store starts with no indexes, an empty query, page 1 and page size 100 |
| CsvStore.Store.AddCsv | src/lib/csv-store.ts:145-154 | the indexes become the ingest of the parsed file, the well-formedness invariant is kept, and nothing else changes |
| CsvStore.Store.RemoveIndex | src/lib/csv-store.ts:156-161 | the named index is removed, the invariant is kept, and nothing else changes |
| CsvStore.Store.ClearAll | src/lib/csv-store.ts:163 | the indexes and query are cleared and the page is reset to 1 |
| CsvStore.Store.SetSearchQuery | src/lib/csv-store.ts:165 | the query is set and the page is reset to 1 |
| CsvStore.Store.SetCurrentPage | src/lib/csv-store.ts:166 | only the page changes |
| CsvStore.Store.SearchResults | src/lib/csv-store.ts:168-211 | results are an order-preserving selection of the rows of the loaded indexes; how many copies are returned is given by `Query.SearchCount` |
| CsvStore.ResultsBelong | src/lib/csv-store.ts:168-211 | every result names a loaded index and carries one of that index's rows |
| CsvStore.Store.GetFieldsForIndex | src/lib/csv-store.ts:214-218 | an unknown index gives no fields; a known one gives the field descriptions of its columns and rows |
| CsvStore.Store.ActiveIndexes | src/lib/csv-store.ts:220 | the active names are distinct and are exactly the names with a stored index |
| Export.DoubleQuotes | src/components/SearchBar.tsx:23 | doubling quotes never shortens a value |
| Export.Escape | src/components/SearchBar.tsx:20-26 | a value containing a comma, quote or newline is wrapped in quotes; any other value is left as is |
| Export.EscapeUnchangedIff | src/components/SearchBar.tsx:20-26 | escaping leaves a value unchanged exactly when it needs no quoting |
| Export.EscapeAll | src/components/SearchBar.tsx:30 | every column name is escaped, in order |
| Export.ScanPlain | src/components/SearchBar.tsx:25 | the store's parser reads an unquoted value without a comma or quote as literal text |
| Export.ScanQuoted | src/components/SearchBar.tsx:23 | the parser reads a quote-doubled body followed by a closing quote back as the original value |
| Export.ScanEscaped | src/components/SearchBar.tsx:20-26 | an escaped value followed by a comma or the end of line is read back as the original value |
| Export.ScanComma | src/lib/csv-store.ts:97-99 | a comma outside quotes ends the current field |
| Export.LineCons | src/components/SearchBar.tsx:32-34 | an exported line is the first escaped value, a comma, then the rest of the line |
| Export.ScanLine | src/components/SearchBar.tsx:30-34 | scanning an exported line gives back exactly the untrimmed values |
| Export.ReadLine | src/components/SearchBar.tsx:30-34 | the store's `parseRow` reads an exported line as the trimmed values |
| Export.ReadLineTrimmed | src/components/SearchBar.tsx:30-34 | values without surrounding white space are read back unchanged |
| Export.RawCells | src/components/SearchBar.tsx:33 | the `_index` column holds the index name, any other column holds the row's value or "" |
| Export.DataLines | src/components/SearchBar.tsx:31-35 | there is one data line per result, in order |
| Export.ExportLines | src/components/SearchBar.tsx:29-36 | the export has a header line plus one line per result |
| Export.ExportText | src/components/SearchBar.tsx:11-12 | there is no export exactly when there are no results |
| Export.ExportReadsBack | src/components/SearchBar.tsx:29-36 | the store's parser reads the header back as the trimmed columns and each data line as that result's trimmed cells, one per column |
| Export.ExportResults | src/components/SearchBar.tsx:10-36 | the export procedure produces exactly the specified text |
| ResultsView.TotalPages | src/components/ResultsTable.tsx:32 | there is at least 1 page; with results, the pages hold all of them and the last page is not empty |
| ResultsView.SliceBound | src/components/ResultsTable.tsx:33-36 | a slice bound is clamped to the list as `Array.prototype.slice` does, counting negatives from the end |
| ResultsView.Slice | src/components/ResultsTable.tsx:33-36 | a slice is never longer than the list |
| ResultsView.PageShape | src/components/ResultsTable.tsx:33-36 | page p is the window from (p-1)·size to p·size clipped to the results; it is at most one page long and empty past the last page |
| ResultsView.PagesPrefix | src/components/ResultsTable.tsx:33-36 | the first k pages together are the first k·size results |
| ResultsView.PagesCover | src/components/ResultsTable.tsx:32-36 | pages 1 to totalPages together are exactly the results |
| ResultsView.IndexNames | src/components/ResultsTable.tsx:38 | one index name is taken per result, in order |
| ResultsView.IndexCountIsDistinctNames | src/components/ResultsTable.tsx:38 | the displayed index count is the number of distinct index names among the results |
| ResultsView.NavigationInRange | src/components/ResultsTable.tsx:57-69 | Previous is enabled exactly when page-1 is a valid page, and Next exactly when page+1 is |

## Left out

- FileUpload.tsx, FieldPanel.tsx and Index.tsx are callers and presentation. They are not part of this model.
- Downloading the exported text (Blob, object URL, anchor click; SearchBar.tsx:38-47) is I/O and is left out. `Export.ExportText` produces the text.
- The Zustand `set`/`get` plumbing, React rendering, `useMemo`/`useCallback` and their dependency lists are not modelled. The store is a class whose methods update its fields in place.
- JavaScript enumerates integer-like keys (such as "2") before other keys, and inherited prototype names (such as "constructor") can make `obj[k]` defined. `Ordered` uses plain insertion order with own keys only.
- `Text.Lower`: `toLowerCase` is modelled for ASCII letters only; Unicode case mapping is left out. It is exact for index names and the known table, which are ASCII. For non-ASCII search text it may differ from the browser.
- Strings are sequences of `char`, not UTF-16 code units. Surrogate pairs are not distinguished.
- `CsvParse.Scan` collects each field's raw text, and `CsvParse.RowFields` trims afterwards. This equals trimming at each push. `CsvParse.ParseRow` pushes trimmed fields as the source does, and its contract ties the two together.
- `ResultsView.PageShape` requires page ≥ 1 and page size ≥ 1. `ResultsView.TotalPages`, `ResultsView.PagesPrefix` and `ResultsView.PagesCover` require page size ≥ 1. `ResultsView.Slice` models the JavaScript clamp for every page, including page ≤ 0, where the source can show an unexpected window.
- `CsvStore.Store`: `pageSize` is a field set to 100 by the constructor and never changed, as in the source. The store's contracts do not bound it; only the `ResultsView` lemmas require it to be at least 1.
- `CsvStore.Store.AddCsv` and `CsvStore.Store.RemoveIndex` require `Valid()` (each index stored under its own name with distinct keys). Every store reachable from the constructor satisfies it.
- `IndexNames.NormalizeIndexName` has no contract of its own. Its properties are the lemmas `NormalizeShape`, `NormalizeIdempotent` and `SameIndexIff`.
- `Export.DoubleQuotes` states only that the result is no shorter. What the doubling means is stated by the round trip `Export.ScanQuoted`.
- `ResultsView.Slice` states only a length bound for arbitrary bounds. For natural bounds `ResultsView.SliceNatural` gives the exact window.
- Concurrency between React renders and store updates is not modelled.
