# Data-cleaning toolkit core in Dafny

This project models the core of a C++ CSV data-cleaning toolkit and proves properties of
that model. The core has three parts:

- **The WebAssembly algorithms.** A `getline`-based CSV tokeniser, then cell counts,
  duplicate-row removal, per-cell rewrites, IQR outlier detection and edit-distance
  inconsistency detection. The rewrites are trim, ASCII case mapping and null-token
  standardisation. Every operation parses its text argument and either counts or
  writes the table back as CSV.
- **The hardened ("secure") build.** An input validator, a numeric test, a loose date
  test, a date rewrite to ISO form, a number rewrite, and a tokeniser with line and
  cell caps. It also has two resource-guarding types, `SecureBuffer` and
  `SecureString`.
- **The native `DataCleaner::parseCSV`.**

Modelling choices:

- The loops of the source are Dafny methods with loop invariants. Each method is proved
  against a specification function, and lemmas state what the source promises about
  those functions.
- A C++ exception is a `Failure` of `Wrappers.Result` carrying the exception's message.
- Text is `string`, and each `char` stands for one byte of the C++ `std::string`
  (a value from 0 to 255). Non-ASCII text is taken as its UTF-8 bytes, so lengths,
  the 10 000-character line limit, the 6 to 10 character date test and edit distances
  all count bytes, as the source does. The model does not itself bound a `char` to 255.
- Every `std::getline` over a string stream is modelled by one
  function, `Streams.Getlines`. It splits on the delimiter, and text after the last
  delimiter gives a piece only when it is non-empty.

- `standardiseNumberSecure` keeps only the first `.` or `,` that is the chosen decimal
  mark (`,` when commas outnumber periods, `.` otherwise), written as `.`; every other
  `.` or `,` is dropped. In `1.234,56` the counts tie, so `.` is the mark and the later
  `,` is dropped: the result is `1.23456` (`Numbers.MixedMarksRule`).

Modules, one per component:

| module | models |
|---|---|
| `Wrappers` | `Result` |
| `Streams` | `getline`, `find`, and CSV serialisation with `,` and `\n` |
| `Tables` | cell counting and per-cell maps over tables |
| `Tokeniser` | `parseCSVInternal` and the exported `parseCSV` row count |
| `Cells` | `isNumeric`; the cell predicates and rewrites |
| `Analyses` | the counting, rewriting and de-duplicating exports |
| `Distinct` | first-occurrence de-duplication |
| `Similarity` | `levenshteinDistance` |
| `Outliers` | `detectOutliers` and `removeOutliersString` |
| `Inconsistency` | `detectInconsistentValues` |
| `SecureChecks` | `isValidCSVData`, `isNumericSecure`, `isDateFormatSecure` |
| `Dates` | `std::stoi` and `standardiseDateToISO_secure` |
| `Numbers` | `standardiseNumberSecure` |
| `SecureParse` | `parseCSVSecure` |
| `SecureTypes` | `SecureBuffer` and `SecureString` |
| `DataCleaner` | `DataCleaner::parseCSV` |

The model follows the code as written, including these behaviours a reader may not expect:

- A `'\r'` before a newline is kept in the last cell. It is not stripped.
  See `Tokeniser.ExampleCarriageReturn`.
- Duplicate detection and `cleanData` treat the header like any other row.
  See `Analyses.HeaderCounts`.
- The column loops of the outlier and inconsistency operations run over the header's
  width, not the widest row.
- `detectOutliers` and `removeOutliersString` can throw on a cell that `isNumeric`
  accepts (see Findings).
- `standardiseDateToISO_secure` can throw on a malformed date (see Findings).

## Model

| member | source | states |
|---|---|---|
| `Streams.IndexOf` | src/algorithms-wasm.cpp:47 | the index is the first occurrence of the delimiter, or the length when it does not occur |
| `Streams.IndexOfSpec` | src/algorithms-wasm.cpp:47 | no delimiter lies before the index, and the delimiter lies at it unless it is the end |
| `Streams.IndexOfAt` | src/algorithms-wasm.cpp:47 | an index with no delimiter before it and the delimiter (or the end) at it is the one found |
| `Streams.FindFrom` | src/secure_algorithms.cpp:181 | `line.find(',', pos)`: the first comma at or after `pos`, or the length for npos |
| `Streams.Getline` | src/algorithms-wasm.cpp:47 | one `getline` call reads the next piece, which holds no delimiter, and leaves the rest of the pieces to later calls |
| `Streams.GetlinesFree` | src/algorithms-wasm.cpp:47-51 | no piece that `getline` yields contains the delimiter |
| `Streams.GetlinesEmpty` | src/algorithms-wasm.cpp:47 | `getline` yields no piece exactly when the text is empty |
| `Streams.GetlinesStep` | src/algorithms-wasm.cpp:51 | a delimiter-free piece followed by the delimiter is read as that piece, then the rest |
| `Streams.TerminatedSnoc` | src/algorithms-wasm.cpp:126-131 | terminating one more line appends it and the terminator |
| `Streams.GetlinesTerminated` | src/algorithms-wasm.cpp:126-131 | rows written each followed by `\n` read back row by row, whatever follows them |
| `Streams.GetlinesOfTerminated` | src/algorithms-wasm.cpp:126-131 | round trip: newline-terminated lines read back exactly, empty ones included |
| `Streams.JoinThenSeparator` | src/algorithms-wasm.cpp:122-126 | a row joined with `,` and then followed by `,` equals its cells each followed by `,` |
| `Streams.JoinAsTerminated` | src/algorithms-wasm.cpp:122-125 | a joined row is its leading cells each followed by the separator, then the last cell |
| `Streams.GetlinesOfJoin` | src/algorithms-wasm.cpp:51 | a row written with `,` reads back exactly when its last cell is non-empty |
| `Streams.JoinInjective` | src/algorithms-wasm.cpp:84-89 | two comma-free rows with the same text are the same row |
| `Streams.JoinFree` | src/algorithms-wasm.cpp:122-125 | joining cells that lack a character gives text that lacks it too |
| `Streams.JoinRow` | src/algorithms-wasm.cpp:84-87 | the `rowStr` loop yields the cells joined with `,` |
| `Tables.RowStrings` | src/algorithms-wasm.cpp:84-88 | one text per row, each the row joined with `,` |
| `Tables.RenderSnoc` | src/algorithms-wasm.cpp:126-131 | writing one more row appends its text and a `\n` |
| `Tables.MapRow` | src/algorithms-wasm.cpp:155-161 | a rewritten row has the same width and each cell is rewritten in place |
| `Tables.MapCells` | src/algorithms-wasm.cpp:154-164 | a rewritten table has the same shape and each row is rewritten cell by cell |
| `Tables.MapCellsIdempotent` | src/algorithms-wasm.cpp:150-170 | a per-cell rewrite that is idempotent on cells is idempotent on tables |
| `Tables.RowCount` | src/algorithms-wasm.cpp:70-72 | a row never has more counted cells than cells |
| `Tables.RowCountMonotone` | src/algorithms-wasm.cpp:70-72 | within a row, counting under a weaker test never gives less |
| `Tables.CellCountMonotone` | src/algorithms-wasm.cpp:65-75 | counting under a weaker test never gives less |
| `Tables.CellCountBound` | src/algorithms-wasm.cpp:65-75 | a count never exceeds the number of cells |
| `Tables.RowCountChanged` | src/algorithms-wasm.cpp:155-161 | no cell of a row satisfies the test exactly when the rewrite leaves the row alone |
| `Tables.CellCountChanged` | src/algorithms-wasm.cpp:138-170 | a count is 0 exactly when the matching rewrite leaves the whole table unchanged |
| `Tables.CountCellsWhere` | src/algorithms-wasm.cpp:68-74 | the nested row and cell loop counts the cells that satisfy the test |
| `Tables.JoinMapStep` | src/algorithms-wasm.cpp:155-161 | writing one more rewritten cell extends the rewritten row's text by that cell |
| `Tables.RenderMappedStep` | src/algorithms-wasm.cpp:154-164 | writing one more rewritten row extends the output by that row and a `\n` |
| `Tokeniser.ParseCSVInternal` | src/algorithms-wasm.cpp:43-55 | the nested `getline` loops give the rows of the non-empty lines, split on `,` |
| `Tokeniser.CountRows` | src/algorithms-wasm.cpp:59-63 | `parseCSV` returns the number of parsed rows, at most the number of lines |
| `Tokeniser.GetlinesKeepsOut` | src/algorithms-wasm.cpp:51 | pieces hold no character that the text lacks |
| `Tokeniser.RowsOfWellFormed` | src/algorithms-wasm.cpp:47-53 | rows built from newline-free lines are non-empty and their cells hold neither `,` nor `\n` |
| `Tokeniser.ParsedWellFormed` | src/algorithms-wasm.cpp:43-55 | every parsed row is non-empty, and no cell holds `,` or `\n` |
| `Tokeniser.RowsAtMostLines` | src/algorithms-wasm.cpp:47-53 | there are never more rows than lines |
| `Tokeniser.BlankLinesVanish` | src/algorithms-wasm.cpp:52 | one row per non-empty line: dropping the blank lines changes nothing |
| `Tokeniser.LeadingComma` | src/algorithms-wasm.cpp:51 | a leading comma gives an empty first cell |
| `Tokeniser.DoubledComma` | src/algorithms-wasm.cpp:51 | two adjacent commas give an empty cell between them |
| `Tokeniser.TrailingComma` | src/algorithms-wasm.cpp:51 | a trailing comma adds no cell |
| `Tokeniser.RenderParse` | src/algorithms-wasm.cpp:43-55 | round trip: a well-formed table whose rows end in a non-empty cell parses back from its CSV rendering |
| `Tokeniser.JoinedParse` | src/algorithms-wasm.cpp:43-55 | the same round trip when the final newline is missing |
| `Tokeniser.RowsOfJoined` | src/algorithms-wasm.cpp:47-53 | the row texts of such a table split back into the table |
| `Tokeniser.SingleLine` | src/algorithms-wasm.cpp:47 | text without a newline is a single line |
| `Tokeniser.ExampleTrailingComma` | src/algorithms-wasm.cpp:51 | `"a,"` parses to one row with the single cell `a` |
| `Tokeniser.ExampleLeadingComma` | src/algorithms-wasm.cpp:51 | `",a"` parses to `["", "a"]` |
| `Tokeniser.ExampleDoubledComma` | src/algorithms-wasm.cpp:51 | `"a,,b"` parses to `["a", "", "b"]` |
| `Tokeniser.ExampleCarriageReturn` | src/algorithms-wasm.cpp:47 | a `\r` before the newline stays in the last cell |
| `Tokeniser.ExampleBlankLine` | src/algorithms-wasm.cpp:52 | a blank line yields no row |
| `Tokeniser.BlankLineSplit` | src/algorithms-wasm.cpp:47 | `x\n\ny\n` splits into the lines `x`, the empty line and `y` |
| `Tokeniser.RowsOfCons` | src/algorithms-wasm.cpp:47-53 | a line contributes its row, if it has cells, ahead of the rows of later lines |
| `Cells.Pow10Monotone` | src/secure_algorithms.cpp:92 | powers of ten grow with the exponent (the digit bound of `stoi`) |
| `Cells.DigitsValueBelow` | src/secure_algorithms.cpp:92 | a string of `n` digits spells a value below 10^n |
| `Cells.CountCharZero` | src/secure_algorithms.cpp:135-138 | no occurrence is counted exactly when the character is absent |
| `Cells.CountCharPrefix` | src/algorithms-wasm.cpp:14-17 | a prefix holds no more occurrences than the whole string |
| `Cells.IsNumeric` | src/algorithms-wasm.cpp:8-23 | `isNumeric` accepts exactly an optional sign followed by a non-empty run of digits with at most one `.` |
| `Cells.NumericExamples` | src/algorithms-wasm.cpp:8-23 | `.` and `-.` are accepted; the empty string, a lone sign, two points and exponents are refused |
| `Cells.FirstNonBlank` | src/algorithms-wasm.cpp:157 | `find_first_not_of(" \t")`: blanks before, a non-blank at the index |
| `Cells.EndNonBlank` | src/algorithms-wasm.cpp:158 | one past `find_last_not_of(" \t")`: blanks after, a non-blank just before |
| `Cells.TrimSpec` | src/algorithms-wasm.cpp:155-161 | a trimmed cell is a slice of the cell with no leading or trailing space or tab |
| `Cells.TrimChangesPadded` | src/algorithms-wasm.cpp:157-159 | trimming changes a cell exactly when `detectWhitespace` counts it |
| `Cells.TrimIdempotent` | src/algorithms-wasm.cpp:157-159 | trimming twice equals trimming once |
| `Cells.Upper` | src/algorithms-wasm.cpp:179 | the ASCII upper-case map keeps the length and maps each character |
| `Cells.Lower` | src/algorithms-wasm.cpp:198 | the ASCII lower-case map keeps the length and maps each character |
| `Cells.UpperSpec` | src/algorithms-wasm.cpp:179 | upper-casing changes only `a`..`z`, leaves none of them, and is idempotent |
| `Cells.LowerSpec` | src/algorithms-wasm.cpp:198 | lower-casing changes only `A`..`Z`, leaves none of them, and is idempotent |
| `Cells.ToUpperCell` | src/algorithms-wasm.cpp:178-179 | the in-place character loop computes the upper-case map |
| `Cells.ToLowerCell` | src/algorithms-wasm.cpp:197-198 | the in-place character loop computes the lower-case map |
| `Cells.StandardiseNullSpec` | src/algorithms-wasm.cpp:229 | exactly the empty and null-token cells become `""`, others are kept, and a second pass changes nothing |
| `Cells.EmptyIsNull` | src/algorithms-wasm.cpp:216 | every cell `detectMissing` counts is also counted by `detectNullValues` |
| `Analyses.DetectMissing` | src/algorithms-wasm.cpp:65-75 | the number of empty cells of the parsed table |
| `Analyses.DetectNullValues` | src/algorithms-wasm.cpp:210-220 | the number of empty or null-token cells |
| `Analyses.DetectWhitespace` | src/algorithms-wasm.cpp:138-148 | the number of non-empty cells that start or end with a space or a tab |
| `Analyses.MissingAtMostNull` | src/algorithms-wasm.cpp:210-220 | `detectMissing` never exceeds `detectNullValues`, which never exceeds the cell count |
| `Analyses.WhitespaceCountsTrimmedCells` | src/algorithms-wasm.cpp:138-170 | `detectWhitespace` is 0 exactly when trimming leaves the table unchanged |
| `Analyses.NullTokensCountRewrittenCells` | src/algorithms-wasm.cpp:210-239 | no null token is present exactly when null standardisation leaves the table unchanged |
| `Analyses.TrimmedTable` | src/algorithms-wasm.cpp:150-170 | after trimming no cell is padded, and trimming again changes nothing |
| `Analyses.RewritesIdempotent` | src/algorithms-wasm.cpp:172-239 | the case and null rewrites are idempotent on tables |
| `Analyses.TrimWhitespaceString` | src/algorithms-wasm.cpp:150-170 | the output is the parsed table with each cell trimmed, written as CSV |
| `Analyses.ToUpperCaseString` | src/algorithms-wasm.cpp:172-189 | the output is the parsed table upper-cased, written as CSV |
| `Analyses.ToLowerCaseString` | src/algorithms-wasm.cpp:191-208 | the output is the parsed table lower-cased, written as CSV |
| `Analyses.StandardiseNullValueString` | src/algorithms-wasm.cpp:222-239 | the output is the parsed table with null cells emptied, written as CSV |
| `Analyses.RowKeyInjective` | src/algorithms-wasm.cpp:82-89 | parsed rows with the same `rowStr` text are the same row |
| `Analyses.RenderByKeys` | src/algorithms-wasm.cpp:126-131 | the output text is the rows' `rowStr` texts, each followed by `\n` |
| `Analyses.KeysAgree` | src/algorithms-wasm.cpp:82-131 | counting and de-duplicating the `rowStr` texts agrees with doing so on the parsed rows |
| `Analyses.DetectDuplicates` | src/algorithms-wasm.cpp:77-93 | the number of parsed rows, header included, that repeat an earlier row |
| `Analyses.CleanData` | src/algorithms-wasm.cpp:95-113 | the number of distinct parsed rows |
| `Analyses.CleanDataString` | src/algorithms-wasm.cpp:115-136 | each distinct row once, in order of first occurrence, written as CSV |
| `Analyses.DuplicatesPlusCleaned` | src/algorithms-wasm.cpp:77-113 | duplicates plus distinct rows equal the parsed rows |
| `Analyses.CleanedRows` | src/algorithms-wasm.cpp:115-136 | the cleaned rows are exactly the parsed rows, none twice, in first-occurrence order |
| `Analyses.HeaderCounts` | src/algorithms-wasm.cpp:82-90 | the header takes part: two identical rows give one duplicate |
| `Distinct.FirstIndex` | src/algorithms-wasm.cpp:107 | the position of the first occurrence |
| `Distinct.DedupPlusDuplicates` | src/algorithms-wasm.cpp:89-107 | every row is either kept or counted as a duplicate |
| `Distinct.DedupElements` | src/algorithms-wasm.cpp:107-110 | de-duplication keeps exactly the rows that occur |
| `Distinct.DedupDistinct` | src/algorithms-wasm.cpp:107-110 | no kept row occurs twice |
| `Distinct.DedupOrder` | src/algorithms-wasm.cpp:120-131 | kept rows appear in the order of their first occurrences |
| `Distinct.DedupIdempotent` | src/algorithms-wasm.cpp:115-136 | de-duplicating twice equals de-duplicating once |
| `Distinct.DistinctFixed` | src/algorithms-wasm.cpp:115-136 | rows that are already distinct are kept as they are |
| `Distinct.Map` | src/algorithms-wasm.cpp:82-88 | each row is replaced by its text, in order |
| `Distinct.DedupByKey` | src/algorithms-wasm.cpp:82-90 | de-duplicating by an injective key is de-duplicating the rows |
| `Distinct.PrefixStep` | src/algorithms-wasm.cpp:82-110 | one more row either repeats an earlier one (a duplicate) or is kept |
| `Similarity.Min3` | src/algorithms-wasm.cpp:36 | the smallest of three numbers |
| `Similarity.LevenshteinDistance` | src/algorithms-wasm.cpp:25-41 | the dynamic-programming table yields the edit distance |
| `Similarity.DistSymmetric` | src/algorithms-wasm.cpp:25-41 | the distance is symmetric |
| `Similarity.DistLower` | src/algorithms-wasm.cpp:25-41 | the distance is at least the difference of the lengths |
| `Similarity.DistUpper` | src/algorithms-wasm.cpp:25-41 | the distance is at most the larger length |
| `Similarity.DistZero` | src/algorithms-wasm.cpp:25-41 | the distance is 0 exactly between equal strings |
| `Similarity.DistanceProperties` | src/algorithms-wasm.cpp:25-41 | whole-string symmetry, zero exactly on equality, and the length bounds |
| `Similarity.ExampleCase` | src/algorithms-wasm.cpp:25-41 | `Apple` and `apple` are at distance 1 |
| `Similarity.ExampleDeletion` | src/algorithms-wasm.cpp:25-41 | `colour` and `color` are at distance 1 |
| `Similarity.ExampleKitten` | src/algorithms-wasm.cpp:25-41 | `kitten` and `sitting` are at distance 3 |
| `Inconsistency.ColumnValues` | src/algorithms-wasm.cpp:306 | a column's values are its non-empty cells below the header, at most one per row |
| `Inconsistency.DetectInconsistentValues` | src/algorithms-wasm.cpp:298-322 | the count is the sum of the column scores over the header's columns |
| `Inconsistency.CollectColumn` | src/algorithms-wasm.cpp:305-306 | the row loop collects the column's non-empty cells |
| `Inconsistency.ScoreColumn` | src/algorithms-wasm.cpp:308-319 | the loop with `processedValues` computes the column score |
| `Inconsistency.CountSimilar` | src/algorithms-wasm.cpp:313-317 | the inner loop counts later unprocessed values within distance 2 |
| `Inconsistency.SimilarCountWitness` | src/algorithms-wasm.cpp:313-318 | `foundSimilar` holds exactly when some later unprocessed value lies within distance 2 |
| `Inconsistency.ScoreUpToZero` | src/algorithms-wasm.cpp:308-319 | a column scores 0 exactly when no value adds anything |
| `Inconsistency.ColumnScoreZero` | src/algorithms-wasm.cpp:308-319 | a column scores 0 exactly when no two different values are within distance 2 |
| `Inconsistency.NearPairScores` | src/algorithms-wasm.cpp:308-319 | a column with two different values within distance 2 scores above zero |
| `Inconsistency.NoNearPairScoresZero` | src/algorithms-wasm.cpp:308-319 | a column with no two different values within distance 2 scores zero |
| `Inconsistency.ScoreColumnsZero` | src/algorithms-wasm.cpp:304-320 | the sum is 0 exactly when every column scores 0 |
| `Inconsistency.InconsistentZero` | src/algorithms-wasm.cpp:298-322 | the result is 0 exactly when the table has fewer than two rows or no column holds two different values within distance 2 |
| `Inconsistency.SimilarCountBound` | src/algorithms-wasm.cpp:313-317 | a value has at most as many similar values as there are values after it |
| `Inconsistency.ScoreUpToBound` | src/algorithms-wasm.cpp:308-319 | the first `k` contributions sum to at most `k` times the column size |
| `Inconsistency.ContributionShape` | src/algorithms-wasm.cpp:318 | a value adds nothing, or itself plus at least one variant |
| `Inconsistency.ExampleVariants` | src/algorithms-wasm.cpp:298-322 | `Apple` and `apple` in one column count 2 |
| `Inconsistency.ExampleRepeat` | src/algorithms-wasm.cpp:298-322 | an exact repeat counts 0 |
| `Outliers.Stod` | src/algorithms-wasm.cpp:249 | `std::stod` on an accepted literal throws exactly when the literal has no digit |
| `Outliers.StodInteger` | src/algorithms-wasm.cpp:249 | `10` converts to 10 |
| `Outliers.StodFraction` | src/algorithms-wasm.cpp:249 | `-2.5` converts to -2.5 |
| `Outliers.StodTrailingPoint` | src/algorithms-wasm.cpp:249 | `5.` converts to 5 |
| `Outliers.StodLonePoint` | src/algorithms-wasm.cpp:249 | `.` and `-.` pass `isNumeric`, and converting them throws `invalid_argument` |
| `Outliers.Insert` | src/algorithms-wasm.cpp:251 | one value is added |
| `Outliers.InsertSpec` | src/algorithms-wasm.cpp:251 | inserting into a sorted sequence keeps it sorted and adds exactly the value |
| `Outliers.SortValues` | src/algorithms-wasm.cpp:251 | the sort keeps the number of values |
| `Outliers.SortValuesSpec` | src/algorithms-wasm.cpp:251 | the sort yields a sorted permutation of the values |
| `Outliers.Values` | src/algorithms-wasm.cpp:253-254 | the values of the pairs, in order |
| `Outliers.Fences` | src/algorithms-wasm.cpp:252-257 | the fences lie 1.5 IQR outside q1 and q3, in the order lower, q1, q3, upper |
| `Outliers.CollectPairs` | src/algorithms-wasm.cpp:249 | the row loop builds the value-row pairs, or throws |
| `Outliers.FailurePersists` | src/algorithms-wasm.cpp:249 | once a conversion throws, the column yields that exception |
| `Outliers.MarkColumn` | src/algorithms-wasm.cpp:250-258 | sorting, quartiles and the marking loop add the column's outliers |
| `Outliers.CollectOutlierRows` | src/algorithms-wasm.cpp:246-259 | the column loop computes the outlier rows or the exception |
| `Outliers.OutliersFailurePersists` | src/algorithms-wasm.cpp:247-259 | an exception in one column ends the whole computation |
| `Outliers.DetectOutliers` | src/algorithms-wasm.cpp:241-261 | the number of distinct outlier rows, or the escaping exception |
| `Outliers.RemoveOutliersString` | src/algorithms-wasm.cpp:263-296 | `""` below two rows; otherwise the rows not marked, written as CSV, or the exception |
| `Outliers.PairsRows` | src/algorithms-wasm.cpp:249 | pairs come from data rows, in increasing row order |
| `Outliers.FlaggedFrom` | src/algorithms-wasm.cpp:258 | a row is flagged exactly when one of its pairs lies strictly outside the fences |
| `Outliers.ColumnFlagged` | src/algorithms-wasm.cpp:250-258 | a column of at least four values marks the rows outside its fences |
| `Outliers.FlaggedKeepsInside` | src/algorithms-wasm.cpp:258 | with distinct rows, a value inside narrower bounds leaves its row unmarked |
| `Outliers.ColumnOutliersSpec` | src/algorithms-wasm.cpp:249-258 | with four or more values, a row is marked exactly when its value is outside the fences computed from the sorted values |
| `Outliers.ColumnOutliersFrom` | src/algorithms-wasm.cpp:258 | a column marks only rows that its pairs come from |
| `Outliers.OutliersUpToRows` | src/algorithms-wasm.cpp:247-259 | marked rows are data rows |
| `Outliers.OutlierRowsAreDataRows` | src/algorithms-wasm.cpp:241-261 | the header is never an outlier row |
| `Outliers.KeptRowsCount` | src/algorithms-wasm.cpp:283-291 | the kept rows and the marked rows together account for every row |
| `Outliers.RemovedMatchesDetected` | src/algorithms-wasm.cpp:263-296 | removal drops exactly as many rows as `detectOutliers` reports and keeps the header first |
| `Outliers.KeptRowsHead` | src/algorithms-wasm.cpp:283-291 | an unmarked header is the first kept row |
| `Outliers.PairsFailure` | src/algorithms-wasm.cpp:249 | a column throws exactly when some examined cell has no digit |
| `Outliers.OutliersUpToFailure` | src/algorithms-wasm.cpp:247-259 | the loop throws exactly when some column does |
| `Outliers.OutlierRowsFailure` | src/algorithms-wasm.cpp:241-261 | both operations throw exactly when some examined cell in a header column has no digit |
| `Outliers.IntegerLiteral` | src/algorithms-wasm.cpp:249 | a run of digits is numeric and converts to its value |
| `Outliers.SortedUnique` | src/algorithms-wasm.cpp:251 | two sorted arrangements of the same values are equal, so tie order does not matter |
| `Outliers.PairsStep` | src/algorithms-wasm.cpp:249 | a convertible examined cell appends its value and row |
| `Outliers.PairsOfColumn` | src/algorithms-wasm.cpp:249 | when every examined row converts, the collected pairs are those rows' values in row order |
| `Outliers.Quartiles` | src/algorithms-wasm.cpp:252-254 | q1 and q3 are entries n/4 and 3n/4 of any sorted arrangement |
| `Outliers.FlaggedNone` | src/algorithms-wasm.cpp:258 | values within the fences flag nothing |
| `Outliers.FiveQuartiles` | src/algorithms-wasm.cpp:252-257 | with five values the quartiles are the second and fourth smallest |
| `Outliers.FencesSevenFifteen` | src/algorithms-wasm.cpp:255-257 | quartiles 10 and 12 give fences 7 and 15 |
| `Outliers.TwoColumns` | src/algorithms-wasm.cpp:246-259 | a two-column table marks what its two columns mark |
| `Outliers.ExampleAmounts` | src/algorithms-wasm.cpp:241-261 | in amounts 10, 12, 11, 9 and 1000, only the row holding 1000 is an outlier |
| `Outliers.ExampleAmountsText` | src/algorithms-wasm.cpp:241-296 | the text `id,amount\n1,10\n2,12\n3,11\n4,9\n5,1000\n` parses to that table, `detectOutliers` counts one row, and `removeOutliersString` writes back the header and rows 1 to 4 |
| `Outliers.AmountsParse` | src/algorithms-wasm.cpp:43-55 | the example text parses to the example table |
| `Outliers.KeptRowsNone` | src/algorithms-wasm.cpp:283-291 | when no earlier row is marked, the kept rows are the first rows |
| `Outliers.LonePointThrows` | src/algorithms-wasm.cpp:249 | a column whose only data cell is `.` makes both operations throw |
| `Outliers.Blanked` | src/algorithms-wasm.cpp:249 | every unconvertible examined cell is emptied and every other cell kept |
| `Outliers.BlankedConverts` | src/algorithms-wasm.cpp:247-259 | the column loop never throws on the blanked table |
| `Outliers.BlankedUnchanged` | src/algorithms-wasm.cpp:249 | a table without unconvertible cells is left as it is |
| `Outliers.LonePointBlanked` | src/algorithms-wasm.cpp:249 | once blanked, the lone-point column marks nothing |
| `Outliers.CheckedOutlierRowsSpec` | src/algorithms-wasm.cpp:241-261 | the corrected rule skips cells without a digit (runs the column loop on the blanked table), never throws, agrees with the source wherever it returns, marks only data rows, and leaves the lone-point column alone |
| `SecureChecks.IsValidCSVData` | src/secure_algorithms.cpp:8-33 | the check rejects a formula after the first `=` or any line over 10 000 characters, and accepts everything else |
| `SecureChecks.FormulaCheck` | src/secure_algorithms.cpp:9-22 | the guarded formula check rejects exactly when more than three characters follow the first `=` and the first three, upper-cased, are SUM, AVG, MAX or MIN |
| `SecureChecks.LineLengthScan` | src/secure_algorithms.cpp:24-30 | the `getline` loop accepts exactly when no line exceeds 10 000 characters |
| `SecureChecks.FormulaGuardFalse` | src/secure_algorithms.cpp:9-10 | the guard is false only for text starting with `\0` that has no `=`, where the check finds nothing anyway |
| `SecureChecks.GetlinesCoverRun` | src/secure_algorithms.cpp:25-26 | a run of non-newline characters lies inside one line |
| `SecureChecks.LongRunRejected` | src/secure_algorithms.cpp:24-30 | any run of more than 10 000 non-newline characters is refused |
| `SecureChecks.OneLine` | src/secure_algorithms.cpp:25 | text without a newline is one line |
| `SecureChecks.LowerCaseFormula` | src/secure_algorithms.cpp:16-17 | `=sum(A1)` is refused, because the prefix is upper-cased first |
| `SecureChecks.ShortFormula` | src/secure_algorithms.cpp:14 | `=SUM` passes: three characters are not more than three |
| `SecureChecks.LaterFormula` | src/secure_algorithms.cpp:11 | only the first `=` is examined: `x=1,=SUM(A1)` passes |
| `SecureChecks.IsNumericSecure` | src/secure_algorithms.cpp:35-52 | the same grammar as `isNumeric` |
| `SecureChecks.DigitCount` | src/secure_algorithms.cpp:60 | the digit count is at most the length |
| `SecureChecks.SeparatorCount` | src/secure_algorithms.cpp:61-64 | the separator count is at most the length |
| `SecureChecks.IsDateFormatSecure` | src/secure_algorithms.cpp:54-71 | 6 to 10 characters, each a digit or one of `/ - .`, with 4 to 8 digits and exactly 2 separators |
| `SecureChecks.CountsCoverAll` | src/secure_algorithms.cpp:58-67 | when every character is a digit or separator, the two counts add up to the length |
| `SecureChecks.LooseDateLength` | src/secure_algorithms.cpp:55-69 | an accepted date has exactly two characters more than digits |
| `SecureChecks.CountsAppend` | src/secure_algorithms.cpp:58-67 | the counts over a concatenation add up |
| `SecureChecks.DigitRunCounts` | src/secure_algorithms.cpp:59-60 | a digit run counts only digits |
| `SecureChecks.ThreeRuns` | src/secure_algorithms.cpp:54-71 | three digit runs with two separators and 4 to 8 digits pass |
| `SecureChecks.DateShapeExamples` | src/secure_algorithms.cpp:54-71 | `31/12/2023`, `2023-1-5` and the mixed `1/2-3456` pass |
| `SecureChecks.DateShapeRejections` | src/secure_algorithms.cpp:54-71 | `1/2/3` and `2023/1/x` are refused |
| `Dates.SpacePrefix` | src/secure_algorithms.cpp:92 | `stoi` skips the leading `isspace` characters |
| `Dates.DigitPrefix` | src/secure_algorithms.cpp:92 | `stoi` reads the longest run of digits |
| `Dates.Stoi` | src/secure_algorithms.cpp:92 | a value `stoi` returns lies in the 32-bit `int` range |
| `Dates.DigitsValueLeadingZero` | src/secure_algorithms.cpp:112-114 | a leading `0` does not change a digit string's value |
| `Dates.StoiLeadingZero` | src/secure_algorithms.cpp:122-123 | padding a digit field with `0` keeps what `stoi` reads |
| `Dates.Pad` | src/secure_algorithms.cpp:122-123 | a one-character field gets a leading `0`; other fields are unchanged |
| `Dates.StandardiseDateToISO` | src/secure_algorithms.cpp:73-126 | the method computes the rewrite, including its exceptions |
| `Dates.SplitParts` | src/secure_algorithms.cpp:78-83 | the `getline` loop collects the parts |
| `Dates.AssembleFields` | src/secure_algorithms.cpp:111-125 | the range check and padding: the input when a field is out of range or unreadable, else `year-month-day` |
| `Dates.PadKeepsValue` | src/secure_algorithms.cpp:112-125 | padding keeps the value of an accepted field and gives at least two characters |
| `Dates.AssembleShape` | src/secure_algorithms.cpp:111-125 | the assembly returns its input or an ISO-shaped date |
| `Dates.AssembleConverted` | src/secure_algorithms.cpp:111-125 | converted fields with month 1..12 and day 1..31 give `year-MM-DD` |
| `Dates.AssembleFails` | src/secure_algorithms.cpp:118-120 | a field that does not convert, or a month or day out of range, gives the input back |
| `Dates.PartsFree` | src/secure_algorithms.cpp:75-83 | no part holds a `-` |
| `Dates.DateResultShape` | src/secure_algorithms.cpp:73-126 | every returned value is the input or an ISO-shaped date |
| `Dates.IsoParts` | src/secure_algorithms.cpp:75-83 | an ISO-shaped date splits on `-` into its three fields |
| `Dates.IsoFixed` | src/secure_algorithms.cpp:86-125 | an ISO-shaped date comes back unchanged |
| `Dates.DateIdempotent` | src/secure_algorithms.cpp:73-126 | rewriting a result again changes nothing |
| `Dates.ThreeParts` | src/secure_algorithms.cpp:78-83 | three fields joined by the separator are the three parts |
| `Dates.StoiDigits` | src/secure_algorithms.cpp:112-114 | up to nine digits read as their value |
| `Dates.StoiUnsigned` | src/secure_algorithms.cpp:92 | on text starting with a digit, `stoi` returns the value of the leading digit run when it fits |
| `Dates.NineDigitsBound` | src/secure_algorithms.cpp:112-114 | nine digits or fewer stay below 10^9, inside the 32-bit range |
| `Dates.DigitRunLength` | src/secure_algorithms.cpp:92 | `stoi` reads the whole of an all-digit field |
| `Dates.SplitDate` | src/secure_algorithms.cpp:74-84 | three digit fields joined by one separator choose that separator and split back into themselves |
| `Dates.AssembleDigits` | src/secure_algorithms.cpp:111-125 | in-range digit fields assemble into `year-month-day`, padded |
| `Dates.YearFirstRule` | src/secure_algorithms.cpp:86-90 | `YYYY?M?D` becomes `YYYY-MM-DD` |
| `Dates.DayFirstRule` | src/secure_algorithms.cpp:91-96 | with the year last and a first field above 12, the first field is the day |
| `Dates.MonthFirstRule` | src/secure_algorithms.cpp:97-101 | with the year last, a first field at most 12 and a second above 12, the first field is the month |
| `Dates.AmbiguousRule` | src/secure_algorithms.cpp:102-107 | with the year last and both fields at most 12, the date is read day first |
| `Dates.YearFirstBranch` | src/secure_algorithms.cpp:86-90 | a 4-character first field is the year, then month, then day |
| `Dates.DayFirstBranch` | src/secure_algorithms.cpp:91-96 | year last and a first field above 12: day, month, year |
| `Dates.MonthFirstBranch` | src/secure_algorithms.cpp:97-101 | year last, first field at most 12 and second above 12: month, day, year |
| `Dates.AmbiguousBranch` | src/secure_algorithms.cpp:102-107 | year last and both leading fields at most 12: day first |
| `Dates.ThrowRule` | src/secure_algorithms.cpp:92 | a year-last date whose first field starts with a letter throws from the `stoi` outside the `try` |
| `Dates.CaughtDateSpec` | src/secure_algorithms.cpp:73-126 | the corrected rewrite never throws, agrees wherever the source returns, gives the input back where the source throws, and is idempotent |
| `Dates.CaughtThrowRule` | src/secure_algorithms.cpp:92-120 | where the source throws, the corrected rewrite returns the text as it was |
| `Numbers.DecimalSeparator` | src/secure_algorithms.cpp:139-140 | the separator is `,` or `.` |
| `Numbers.StandardiseNumberSecure` | src/secure_algorithms.cpp:128-157 | the two loops compute the rewrite |
| `Numbers.Digits` | src/secure_algorithms.cpp:143-144 | a string's digits are never more than its characters |
| `Numbers.ScanSpec` | src/secure_algorithms.cpp:141-153 | the build loop yields a plain number with the input's digits, and writes a `.` exactly when the input holds the decimal separator |
| `Numbers.NumberShape` | src/secure_algorithms.cpp:128-157 | the output keeps the input's digits; an output that differs from the input is a plain number without `,` |
| `Numbers.DecimalPointRule` | src/secure_algorithms.cpp:135-148 | `,` is the separator exactly when commas outnumber periods, and the output holds `.` exactly when the input holds the separator |
| `Numbers.ScanPlain` | src/secure_algorithms.cpp:141-153 | a plain number scans to itself |
| `Numbers.NumberIdempotent` | src/secure_algorithms.cpp:128-157 | the rewrite is idempotent |
| `Numbers.CountCharConcat` | src/secure_algorithms.cpp:135-138 | counts over a concatenation add up |
| `Numbers.ScanDigits` | src/secure_algorithms.cpp:143-144 | digits are copied through |
| `Numbers.DecimalRule` | src/secure_algorithms.cpp:139-148 | `a,b` and `a.b` over digit runs both become `a.b` |
| `Numbers.MixedMarksRule` | src/secure_algorithms.cpp:139-148 | with one `.` and one `,` the counts tie, `.` is the mark and the later `,` is dropped: `a.b,c` becomes `a.bc` |
| `Numbers.MinusRule` | src/secure_algorithms.cpp:150-152 | a leading `-` is kept and a later one is dropped |
| `SecureParse.Take` | src/secure_algorithms.cpp:184-187 | the first `n` elements: a prefix of at most `n`, the whole sequence when it is short enough |
| `SecureParse.ParseCSVSecure` | src/secure_algorithms.cpp:159-208 | throws "Invalid CSV data detected" when validation fails, else returns the capped rows |
| `SecureParse.ReadLines` | src/secure_algorithms.cpp:166-205 | the line loop reads at most 10 000 lines and keeps each one's capped, non-empty row |
| `SecureParse.SplitLine` | src/secure_algorithms.cpp:176-199 | the `find`/`substr` loop and its tail yield a line's first 1000 getline cells |
| `SecureParse.CommaStep` | src/secure_algorithms.cpp:181-191 | the cell before the next comma is the next getline piece |
| `SecureParse.LastPiece` | src/secure_algorithms.cpp:194-199 | after the last comma, the non-empty tail is the last piece |
| `SecureParse.TakeCons` | src/secure_algorithms.cpp:183-189 | taking from a list that starts with one cell keeps that cell and takes one fewer from the rest |
| `SecureParse.SecureRefusal` | src/secure_algorithms.cpp:162-164 | the parser throws exactly when `isValidCSVData` refuses, with that message |
| `SecureParse.CappedRowsShape` | src/secure_algorithms.cpp:170-205 | at most one row per line read; rows are non-empty, at most 1000 cells, and free of `,` and `\n` |
| `SecureParse.SecureBounds` | src/secure_algorithms.cpp:159-208 | an accepted text gives at most 10 000 rows, each with 1 to 1000 cells |
| `SecureParse.CappedRowsUncapped` | src/secure_algorithms.cpp:170-205 | within the limits the caps change nothing |
| `SecureParse.SecureAgrees` | src/secure_algorithms.cpp:159-208 | a valid text within 10 000 lines and 1000 cells per line parses exactly as `parseCSVInternal` does |
| `SecureParse.CappedRowsTruncate` | src/secure_algorithms.cpp:171-174 | only the first lines up to the budget matter |
| `SecureParse.LaterLinesIgnored` | src/secure_algorithms.cpp:171-174 | lines after the 10 000th never change the result |
| `SecureParse.CappedRowPrefix` | src/secure_algorithms.cpp:183-199 | a row is cut, never altered: its cells are the line's first cells, 1000 of them at most |
| `SecureTypes.SecureBuffer.constructor` | src/secure_algorithms.h:14-20 | past the size check the buffer holds `s` bytes, all zero |
| `SecureTypes.SecureBuffer.Create` | src/secure_algorithms.h:14-20 | a request above 100 MiB throws "Input too large"; any other request gives a fresh zeroed buffer of that size |
| `SecureTypes.SecureBuffer.Get` | src/secure_algorithms.h:27 | the storage itself, of `size` bytes |
| `SecureTypes.SecureBuffer.GetSize` | src/secure_algorithms.h:28 | the size is the storage's length, at most 100 MiB |
| `SecureTypes.SecureBuffer.SecureWipe` | src/secure_algorithms.h:21-42 | on release every byte is overwritten with 0 |
| `SecureTypes.SecureString.Length` | src/secure_algorithms.h:58 | the number of bytes held |
| `SecureTypes.SecureString.At` | src/secure_algorithms.h:61-66 | the byte at `pos`, or "SecureString access out of bounds" exactly when `pos` is not below the length |
| `SecureTypes.SecureString.Substr` | src/secure_algorithms.h:68-70 | at most `len` bytes from `pos`, as many as remain when fewer; throws exactly when `pos` is past the end |
| `SecureTypes.SecureString.Equals` | src/secure_algorithms.h:72-82 | true exactly when the other string equals the held one; the XOR/OR loop scans every position |
| `SecureTypes.CreateString` | src/secure_algorithms.h:50-55 | more than 50 MiB throws "String too large"; anything else is held unchanged |
| `SecureTypes.EmptyAndWhole` | src/secure_algorithms.h:58-70 | `empty` holds exactly when the length is 0, and `substr(0)` gives the whole string |
| `DataCleaner.ParseCSV` | src/algorithms.cpp:6-27 | the same rows as `parseCSVInternal`: non-empty rows, cells free of `,` and `\n` |

## Left out

- `std::stod` is modelled as exact decimal conversion to a real. Double rounding,
  overflow to infinity and `out_of_range` are not modelled.
- The `int` and `size_t` counters and the `int` row indices are unbounded integers. No
  table reaches their limits.
- The Emscripten plumbing is not part of this model: `extern "C"`, the `const char*`
  arguments, the `new char[]` results the caller must free, and the `strcpy` into them.
  A NUL byte inside the text, which would end the C string early, is not modelled.
- `DataCleaner::detectMissingValues`, `detectDuplicates` and `cleanData` have empty
  bodies. Flowing off their end is undefined behaviour, so they are not modelled.
- Outliers.SortValues: `std::sort` on (value, row) pairs also orders equal values by
  row. The model sorts the values alone; `Outliers.SortedUnique` shows that the
  quartiles do not depend on that order.
- SecureTypes.SecureString.Equals: the accumulator is `volatile int` over sign-extended
  `char`s. The model accumulates zero-extended bytes in `bv32`; the result is zero
  under exactly the same condition. Timing behaviour (the point of `volatile`) is not
  expressible.
- `SecureBuffer`'s move constructor and move assignment, the deleted copy operations,
  and the raw pointer `c_str()` of `SecureString` are not modelled. `SecureWipe`
  models the destructor's wipe, and the release of the memory is not modelled.
- SecureTypes.SecureBuffer.constructor: an allocation failure (`std::bad_alloc`) is
  not modelled.
- Dates: concrete literal dates (for example `31/12/2023`) are covered by the general
  rules `YearFirstRule`, `DayFirstRule`, `MonthFirstRule` and `AmbiguousRule`, not by
  literal example lemmas.
- Only the core files are modelled. The HTTP server, the service worker, the
  front-end and the native `main` are not part of this model.

## Findings

| source | as written | input that shows it | evidently intended | confidence | as-written member | corrected member |
|---|---|---|---|---|---|---|
| src/algorithms-wasm.cpp:249,271 | the numeric gate `isNumeric` accepts `.` and `-.`, and `std::stod` then throws `invalid_argument`, which escapes `detectOutliers` and `removeOutliersString` | the text `a\n.\n` | cells that cannot be converted are skipped, like other non-numeric cells | high (not executed) | `Outliers.LonePointThrows` | `Outliers.CheckedOutlierRowsSpec` |
| src/secure_algorithms.cpp:92,97 | the `std::stoi` calls that choose the field order stand outside the `try` block, so a non-numeric first or second field throws `invalid_argument` out of the function | the text `ab/12/2023` | a malformed date is returned unchanged, as the `catch (...)` at lines 118-120 does for the other conversions | medium (not executed) | `Dates.ThrowRule` | `Dates.CaughtDateSpec` |
