# CA Leaderboard — a Dafny model of the leaderboard pipeline

The campus-ambassador leaderboard runs three steps, one after another.

1. It parses a pipe-delimited markdown table of certification submissions
   (`parseMarkdownTable`).
2. It tallies the rows per referral code and looks up each code's owner in
   a name → code directory (`calculateLeaderboard`).
3. It renders the tallies, sorted by count, as ranked rows scoring 50 points
   per certification (`leaderboardRows`).

This project models those three steps and proves what they guarantee.

| file | module | what it models |
|---|---|---|
| `wrappers.dfy` | `Wrappers` | `Option`. JavaScript's `undefined` is `None`. |
| `text.dfy` | `Text` | `trim` (over ECMAScript's white-space and line-terminator set), `split` on one character, its inverse `join`, and `startsWith`. |
| `table_parser.dfy` | `TableParser` | `parseMarkdownTable`. It is an imperative method with its loop, proved equal to the functional specification `ParsedRows`. The properties of `ParsedRows` are proved as lemmas. |
| `aggregator.dfy` | `Aggregator` | `calculateLeaderboard`. The `forEach` tally into the `Map` is imperative. The `Map` is an insertion-order key list plus a dictionary. `Array.from(values())` is a loop. The stable `sort` is the insertion sort `SortByCount`. The lookup `Object.keys(...).find(...)` is `Owner`. |
| `presentation.dfy` | `Presentation` | The rendered rows: rank, name, code, certifications, and score = count × 50. |
| `scenario.dfy` | `Scenario` | The worked example: rows Alice, Bob, Alice give Alice 2 certifications and 100 points, then Bob 1 and 50. It is proved for any cell-shaped names and distinct codes. |

A reader of the table format might expect some behaviours that the code
does not have. The model follows the code.

- **Missing code column.** One might expect every leaderboard code to be a
  string. In the code, a table without a "Referral Code" column gives every
  row the code `undefined`. All rows are then tallied into one ownerless
  record (`Aggregator.LeaderboardWithoutCodes`).
- **The referral check.** One might expect rows with a blank "Referral
  Code" cell to be dropped by the check written for them. In the code, that
  check can never fire (`TableParser.ReferralCheckNeverRejects`):
  - `filter(Boolean)` has already removed every blank cell;
  - a row with a blank code cell fails the arity test instead, or has its
    cells shifted.
- **Empty cells.** One might expect only the empty cells outside the outer
  delimiters to be dropped. The code drops every empty cell, so
  `Alice||ABC123` reads as `Alice|ABC123`
  (`Scenario.InteriorBlankCellDropped`, `TableParser.CellsInOrder`).
- **Duplicate headers.** One might expect headers to be unique. The code
  lets a repeated header take the cell of its last column
  (`TableParser.RowDictValues`).
- **Number of entries.** The number of entries is at most the number of
  distinct codes, and the model proves the two are equal
  (`Aggregator.LeaderboardOnePerCode`).

## Model

| member | source | states |
|---|---|---|
| Text.Trim | CA_Leaderboard/src/App.jsx:15-35 | `s.trim()`. The result has no white space at either end. `TrimIsInfix` and `TrimOfTrimmed` pin it down: it is the input with its leading and trailing white space removed. |
| Text.Split | CA_Leaderboard/src/App.jsx:12-26 | `s.split(sep)` for one character. There is always at least one piece. `JoinSplit` and `SplitJoin` pin it down: the separator-free pieces that join back to the input. |
| Text.StartsWith | CA_Leaderboard/src/App.jsx:24 | `s.startsWith(prefix)`: the prefix fits in `s` and its first characters are the prefix. `IsContentLine` uses it for the separator test. |
| Text.TrimIsInfix | CA_Leaderboard/src/App.jsx:23 | `trim` returns the infix of its input left after removing white space, and only white space, from both ends. |
| Text.TrimOfTrimmed | CA_Leaderboard/src/App.jsx:35 | Trimming a string with no white space at either end returns it unchanged, so `trim` is idempotent. |
| Text.JoinSplit | CA_Leaderboard/src/App.jsx:12 | No piece of `split(sep)` contains `sep`. Joining the pieces with `sep` gives the input back. |
| Text.SplitJoin | CA_Leaderboard/src/App.jsx:12 | `split` undoes `join` for any non-empty list of separator-free pieces. |
| TableParser.NonEmpty | CA_Leaderboard/src/App.jsx:14-26 | `filter(Boolean)` on strings, defined as the order-keeping filter `FilterMap` with the test `NonBlank`. It never lengthens its input. `NonEmptyKeeps` and `NonEmptyFollowsInput` state what it keeps. |
| TableParser.NonEmptyKeeps | CA_Leaderboard/src/App.jsx:14-16 | `filter(Boolean)` keeps exactly the non-empty strings. |
| TableParser.NonEmptyFollowsInput | CA_Leaderboard/src/App.jsx:14-26 | `filter(Boolean)` keeps the non-empty strings in their order, each as often as it occurs. The k-th kept string is the one at the k-th non-empty position. |
| TableParser.Cells | CA_Leaderboard/src/App.jsx:26 | The line split at the cell delimiter, each piece trimmed, then `filter(Boolean)`. There are never more cells than pieces. `CellsInOrder` and `CellsWellFormed` state which cells it gives. |
| TableParser.Pieces | CA_Leaderboard/src/App.jsx:26 | The line split at the cell delimiter with each piece trimmed: one trimmed piece per piece of the split. `CellsInOrder` relates the cells to these pieces. |
| TableParser.CellsInOrder | CA_Leaderboard/src/App.jsx:26 | The cells are, in order, the trimmed pieces between delimiters that are not blank. The k-th cell is the k-th such piece, trimmed, so it is the cell a header at position k receives. |
| TableParser.CellsWellFormed | CA_Leaderboard/src/App.jsx:26 | Every cell of a line is non-empty, trimmed and free of the cell delimiter. |
| TableParser.RowDict | CA_Leaderboard/src/App.jsx:29-32 | The `reduce` that writes `acc[header] = row[idx]` in header order. `RowDictKeys` and `RowDictValues` state its keys and values. |
| TableParser.LineRow | CA_Leaderboard/src/App.jsx:23-37 | What one line contributes: nothing at a `continue`, else the dictionary pushed. `ReferralCheckNeverRejects` and `LineRowWellFormed` state when it yields a row and what that row holds. |
| TableParser.RowDictKeys | CA_Leaderboard/src/App.jsx:29-32 | The `reduce` dictionary has exactly the headers as keys. |
| TableParser.RowDictValues | CA_Leaderboard/src/App.jsx:29-32 | Every header is a key and every value is a cell of the row. A header not repeated later maps to the cell in its own column, so a repeated header takes the cell of its last column. |
| TableParser.Lines | CA_Leaderboard/src/App.jsx:12 | `markdown.split("\n")`. There is always at least one line. `JoinSplit` and `SplitJoin` characterise the split. |
| TableParser.Headers | CA_Leaderboard/src/App.jsx:13-16 | The cells of line 0. `ParsedRowsWellFormed` states that every row has exactly these keys, and `EmptyTable` that the empty text has none. |
| TableParser.IsContentLine | CA_Leaderboard/src/App.jsx:24 | A trimmed line that is neither blank nor starts with the separator marker. `ReferralCheckNeverRejects` states that a line yields a row exactly when this holds and the arity matches. |
| TableParser.ParsedRows | CA_Leaderboard/src/App.jsx:11-42 | The value `parseMarkdownTable` returns. `ParsedRowsFollowLines`, `ParsedRowsWellFormed` and `EmptyTable` state which rows it holds, in which order, and their shape. |
| TableParser.ParseLine | CA_Leaderboard/src/App.jsx:23-37 | One iteration of the loop yields a row exactly as the line specification `LineRow` says. It yields nothing for a blank or separator line, a cell count different from the header count, or a blank or missing code cell. |
| TableParser.ParseDataLines | CA_Leaderboard/src/App.jsx:22-39 | The loop over lines 2 and up collects, in order, the rows the lines yield. It collects nothing when there are at most two lines. |
| TableParser.ParseMarkdownTable | CA_Leaderboard/src/App.jsx:11-42 | The parser returns `ParsedRows(markdown)`: the headers come from line 0, line 1 is skipped, and lines 2 and up are filtered. |
| TableParser.ReferralCheckNeverRejects | CA_Leaderboard/src/App.jsx:26-35 | A line yields a row if and only if, once trimmed, it is neither blank nor a separator and has as many cells as there are headers. The row is then its header-to-cell dictionary. The "Referral Code" check never rejects. |
| TableParser.LineRowWellFormed | CA_Leaderboard/src/App.jsx:26-32 | A row's keys are exactly the headers. Every value is a non-empty, trimmed cell without the cell delimiter. |
| TableParser.FilterMapFollowsInput | CA_Leaderboard/src/App.jsx:22-38 | The kept values appear in input order. The k-th value is what the k-th kept position yields. Every position that yields a value is kept. |
| TableParser.ParsedRowsFollowLines | CA_Leaderboard/src/App.jsx:22-39 | The rows come, in order, from exactly the lines numbered 2 and up that yield a row. |
| TableParser.ParsedRowsWellFormed | CA_Leaderboard/src/App.jsx:13-35 | Every row has one key per header. With a "Referral Code" header every row has a non-empty trimmed code. Without one, no row has a code. |
| TableParser.EmptyTable | CA_Leaderboard/src/App.jsx:12-16 | The empty text has no headers and no rows. |
| Aggregator.Codes | CA_Leaderboard/src/App.jsx:48-49 | The code of each row, row by row; as many codes as rows. `LeaderboardCounts` and `LeaderboardOnePerCode` state the leaderboard in terms of these codes. |
| Aggregator.CodeOf | CA_Leaderboard/src/App.jsx:49 | `entry["Referral Code"]`, `undefined` when the row has no such key. `LeaderboardWithoutCodes` states what follows when no row has one. |
| Aggregator.Owner | CA_Leaderboard/src/App.jsx:51-53 | `Object.keys(referralData).find(...)`. `OwnerIsFirstMatch` states its result. |
| Aggregator.OwnerIsFirstMatch | CA_Leaderboard/src/App.jsx:51-53 | The owner is the name of the first directory entry holding the code. There is no owner if and only if no entry holds it. |
| Aggregator.Count | CA_Leaderboard/src/App.jsx:57-60 | The number of rows carrying a code, which the counter `++` reaches. `CountPositive` states that it is positive exactly for codes that occur. |
| Aggregator.Distinct | CA_Leaderboard/src/App.jsx:50-58 | The insertion order of the `Map`'s keys. `DistinctKeeps` and `DistinctInFirstAppearanceOrder` state that it holds each code read once, in first-appearance order. |
| Aggregator.CountPositive | CA_Leaderboard/src/App.jsx:49-60 | A code is counted at least once if and only if some row carries it. |
| Aggregator.DistinctKeeps | CA_Leaderboard/src/App.jsx:50-58 | The `Map`'s key order holds every code read, once each, and nothing else. |
| Aggregator.DistinctInFirstAppearanceOrder | CA_Leaderboard/src/App.jsx:48-58 | The keys are in the order in which their codes first appear among the rows. |
| Aggregator.EntryFor | CA_Leaderboard/src/App.jsx:54-60 | The record the `Map` holds for a code after the loop: its first owner, the code and its count. `CountReferrals` and `LeaderboardCounts` state that these are the records. |
| Aggregator.Tally | CA_Leaderboard/src/App.jsx:63 | `Array.from(referralCount.values())` before the sort: one `EntryFor` record per distinct code, in key order. `TallyFacts` states its records. |
| Aggregator.CountReferrals | CA_Leaderboard/src/App.jsx:46-61 | After `forEach`, the keys are the distinct codes in first-appearance order. Each record holds its code's first directory owner and its number of rows. |
| Aggregator.RecordsInOrder | CA_Leaderboard/src/App.jsx:63 | `Array.from(values())` lists the records in key order. |
| Aggregator.CalculateLeaderboard | CA_Leaderboard/src/App.jsx:45-66 | The routine returns `Leaderboard(parsedData, referralData)`: the tally of the codes in first-appearance order, stably sorted by count. The `Leaderboard` lemmas below state what that value holds. |
| Aggregator.TallyFacts | CA_Leaderboard/src/App.jsx:46-63 | Before sorting, there is one record per code read. The counts add up to the number of rows. Each record carries its code's owner and count. |
| Aggregator.SortByCount | CA_Leaderboard/src/App.jsx:63-65 | The stable `sort` by count, highest first. It keeps the length. `SortByCountSorted`, `SortByCountPermutes` and `SortByCountStable` state that it sorts, permutes and keeps each count's records in input order. |
| Aggregator.SortByCountSorted | CA_Leaderboard/src/App.jsx:63-65 | The sort orders records by count, highest first. |
| Aggregator.SortByCountPermutes | CA_Leaderboard/src/App.jsx:63-65 | The sorted records are a permutation of the input. |
| Aggregator.SortByCountStable | CA_Leaderboard/src/App.jsx:63-65 | Stability: for every count c, the output's records with count c are exactly the input's records with count c, in the same order, repeated records included. With `SortByCountSorted` this fixes the output uniquely. |
| Aggregator.SortByCountTotal | CA_Leaderboard/src/App.jsx:63-65 | Sorting keeps the sum of the counts. |
| Aggregator.SortByCountUnique | CA_Leaderboard/src/App.jsx:63-65 | Sorting keeps codes unique. |
| Aggregator.Leaderboard | CA_Leaderboard/src/App.jsx:45-66 | The value `calculateLeaderboard` returns. `LeaderboardCounts`, `LeaderboardOnePerCode` and `LeaderboardOrder` state its records and their order. |
| Aggregator.LeaderboardCounts | CA_Leaderboard/src/App.jsx:45-66 | The counts add up to the number of rows. Each record's count is the number of rows with its code, and is at least 1. Its name is that code's first owner in the directory. |
| Aggregator.LeaderboardOnePerCode | CA_Leaderboard/src/App.jsx:45-66 | There is one record per distinct code among the rows, and no other. |
| Aggregator.LeaderboardOrder | CA_Leaderboard/src/App.jsx:45-66 | Records are sorted by count, highest first. Records with equal counts appear in the order in which their codes first appear. |
| Aggregator.LeaderboardOfNothing | CA_Leaderboard/src/App.jsx:45-66 | No rows give an empty leaderboard. |
| Aggregator.LeaderboardWithoutCodes | CA_Leaderboard/src/App.jsx:49-61 | Rows without a code give the single record (no name, `undefined` code, one certification per row). |
| Presentation.DisplayRows | CA_Leaderboard/src/App.jsx:100-106 | `leaderboard.map((item, index) => ...)`: one row per record. `DisplayRowsShowBoard` states its rank and score columns. |
| Presentation.DisplayRowsShowBoard | CA_Leaderboard/src/App.jsx:100-106 | The table shows every record, unchanged and in order, ranked 1, 2, … by position. Each score is 50 times the certification count, which can be read back from it. |
| Presentation.ScoresFollowRanks | CA_Leaderboard/src/App.jsx:100-106 | On a sorted leaderboard, a higher rank never scores less. |
| Presentation.TotalScoreIsPoints | CA_Leaderboard/src/App.jsx:106 | The scores add up to 50 times the total certification count. |
| Presentation.LeaderboardScores | CA_Leaderboard/src/App.jsx:100-106 | The scores of a leaderboard add up to 50 points per parsed row. Each score is at least 50, and scores never increase down the table. |
| Presentation.LeaderboardCodesAreCells | CA_Leaderboard/src/App.jsx:18-49 | With a "Referral Code" column, every code shown is a non-empty trimmed cell. Without one, there is at most one record. |
| Scenario.InteriorBlankCellDropped | CA_Leaderboard/src/App.jsx:26 | `filter(Boolean)` drops every empty cell, interior ones too: two cells separated by two delimiters read the same as when separated by one. |
| Scenario.DataLine | CA_Leaderboard/src/App.jsx:23-37 | Under the headers Name and Referral Code, a line of two cells x and y yields the row with name x and code y. |
| Scenario.ExampleRows | CA_Leaderboard/src/App.jsx:11-42 | The example table parses to Alice's, Bob's and Alice's rows. |
| Scenario.ExampleLeaderboard | CA_Leaderboard/src/App.jsx:45-66 | Those rows tally to Alice with 2 certifications, then Bob with 1, each named from the directory. |
| Scenario.ExampleDisplay | CA_Leaderboard/src/App.jsx:100-106 | The example renders as rank 1, Alice, 2 certifications, 100 points, then rank 2, Bob, 1 certification, 50 points. |

## Left out

- Fetching, React state and rendering are not modelled. This covers the
  hooks `useState`, `useEffect`, `useMemo` and `useCallback`, the parallel
  `axios` fetches with `Promise.all`, the loading and error states, the
  `try`/`catch` with `console.error`, and the JSX and CSS. They are I/O and
  UI. The two fetched values become the parameters `markdown` and
  `referralData`.
- JSON decoding of the directory is not modelled. The directory is given
  as its (name, code) pairs, already in `Object.keys` order. Non-string
  values in the JSON are not modelled.
- Aggregator.Owner: a name-keyed directory cannot hold one name twice.
  `Owner` accepts such lists anyway and returns the first match. The
  library `find` loop is modelled by that recursive function, not as a loop.
- Aggregator.SortByCount: the library `sort` works in place and with a
  comparator. The model is a pure stable insertion sort. ECMAScript requires
  `Array.prototype.sort` to be stable, so the resulting order is the same.
- Aggregator.CountReferrals: the record objects stored in the `Map` are
  incremented in place through the reference `get(code)` returns. The model
  writes a new record into the dictionary instead. No other reference to
  those records exists, so the result is the same.
- Text.Trim: strings are sequences of characters, not UTF-16 code units.
  Surrogate pairs are single characters here. This does not affect `trim`
  or splitting on `|` and line breaks.
- Presentation.DisplayRows: the React row `key` string is not modelled.
- Counts are unbounded naturals. JavaScript numbers count exactly only up
  to 2^53.
- TableParser.RowDict: a header named `__proto__` is an ordinary key here.
  The source's plain-object accumulator would ignore it.
- TableParser.ParseLine: one loop iteration is a method of its own, so the
  `continue` statements become a `None` result.
