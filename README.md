# Sales warehouse build: a Dafny model

`scripts/build_sqlite_warehouse.py` turns a CSV export of retail sales
lines into a small star schema in SQLite. There is one fact table
(`fact_sales`) and four dimensions (`dim_customer`, `dim_product`,
`dim_country`, `dim_date`). This project models the logic of that run and
proves what it promises:

- **Column lookup** (`col`). Each required column is the first header that
  equals the required name once both are stripped and lower-cased. If no
  header matches, the run stops with an error naming the column and listing
  the headers found (`columns.dfy`).
- **Cleaning** (`main()`, lines 52-91). Three filters run in order:
  - the invoice date must parse;
  - quantity and price must be numeric;
  - the quantity must be nonzero and the price positive.

  Each filter keeps exactly the rows that pass it, each once and in input
  order; `picks.dfy` states this through strictly increasing positions.
  Then the text fields are stripped and the customer id is normalised to
  the decimal text of an `Int64` or to the sentinel `GUEST`. Finally the
  date parts, quarter, revenue and return flag are derived
  (`cleaning.dfy`, over the values in `records.dfy` and the string
  operations in `text.dfy`).
- **Dimension load** (lines 157-186). Each dimension is filled from its
  deduplicated column by `INSERT OR IGNORE` into a table whose natural key
  is `UNIQUE` and whose surrogate key is `AUTOINCREMENT`. The tables are
  `Table` objects whose `InsertOrIgnore` and `InsertAll` methods update a
  row sequence and a key index in place. They are proved against the
  functional reference `FirstByKey` (`dimensions.dfy`).
- **Fact resolution** (lines 198-224). Four left merges attach the
  surrogate keys, and the rows left without a key are counted per
  dimension. A count above zero prints a warning; it never stops the run
  (`facts.dfy`).
- **The whole run**. `Warehouse.BuildWarehouse` runs the stages step by
  step, as `main()` does, and is proved equal to the value `Warehouse.Build`.
  The lemmas beside it prove three things about a successful run:
  - one dimension entry per distinct natural key;
  - the date attributes are consistent;
  - referential completeness: every fact row finds all four keys, every
    missing count is zero and no warning is printed.

The parsers the script borrows from pandas (`to_datetime` and `to_numeric`
with `errors="coerce"`) are a `Parsers` parameter of partial functions
returning `Option`. Prices and revenue are exact `real` numbers.

## Model

| member | source | states |
|---|---|---|
| Columns.Col | scripts/build_sqlite_warehouse.py:23-29 | a found column is a header whose stripped, lower-cased form equals the name's, and no earlier header matches; otherwise the error carries the name and the full header list, and no header matches |
| Columns.HeaderKey | scripts/build_sqlite_warehouse.py:25-27 | the comparison key of a header or a name has no whitespace at either end and no upper-case letter, and is no longer than its input |
| Columns.HeaderKeyIdempotent | scripts/build_sqlite_warehouse.py:25-27 | the key of a key is itself, so a required name already stripped and lower-cased compares as written |
| Columns.FirstMatchIndex | scripts/build_sqlite_warehouse.py:25-28 | the index found is the first header, in header order, whose key equals the target's; none found means no header matches |
| Columns.ColIsFirstMatch | scripts/build_sqlite_warehouse.py:23-29 | the first matching header is exactly what `col` returns |
| Columns.FindColumn | scripts/build_sqlite_warehouse.py:23-29 | the loop over the headers returns the first match or raises the missing-column error, and agrees with `Col` |
| Columns.Assemble | scripts/build_sqlite_warehouse.py:41-48 | the eight lookups succeed together, each required name getting its own header, or the run fails with the first failing lookup's error, all earlier lookups having succeeded |
| Columns.ResolveColumns | scripts/build_sqlite_warehouse.py:41-48 | the eight `col` calls in the source's order give the column mapping or the first error, as `ResolveSpec` states |
| Columns.ResolveSpec | scripts/build_sqlite_warehouse.py:41-48 | the lookup of the eight required columns succeeds exactly when every required name matches some header |
| Columns.ResolveSuccess | scripts/build_sqlite_warehouse.py:41-48 | after a successful lookup, every required name is mapped to its first matching header |
| Columns.ResolveFailure | scripts/build_sqlite_warehouse.py:29 | a failed lookup reports the first required name, in lookup order, that no header matches; every earlier name has a match |
| Text.Strip | scripts/build_sqlite_warehouse.py:64-67 | `str.strip()` never lengthens its input and leaves no whitespace at either end |
| Text.StripIsSlice | scripts/build_sqlite_warehouse.py:64-67 | what strip keeps is one contiguous slice of the input, and everything dropped before and after it is whitespace |
| Text.StripStrippedIsIdentity | scripts/build_sqlite_warehouse.py:64-67 | a string with no whitespace at either end is unchanged by strip |
| Text.StripIdempotent | scripts/build_sqlite_warehouse.py:64-67 | stripping twice is stripping once |
| Text.Lower | scripts/build_sqlite_warehouse.py:25-27 | lower-casing keeps the length and maps each character on its own |
| Text.IntText | scripts/build_sqlite_warehouse.py:72 | `str()` of an integer is non-empty integer text, starting with a minus sign exactly when the integer is negative, with no leading zero (`0` alone excepted) and no `-0` |
| Text.NatTextRoundTrip | scripts/build_sqlite_warehouse.py:72 | the decimal digits of a natural number read back to that number |
| Text.IntTextRoundTrip | scripts/build_sqlite_warehouse.py:72 | `str()` of an integer is a well-formed integer text that reads back to the same integer |
| Text.IntTextInjective | scripts/build_sqlite_warehouse.py:72 | two integers render alike exactly when they are equal |
| Records.MonthAbbrev | scripts/build_sqlite_warehouse.py:81 | the `%b` month name is three letters |
| Records.QuarterOf | scripts/build_sqlite_warehouse.py:82 | `(month - 1) // 3 + 1` is the quarter in 1..4 whose three months contain the month |
| Records.AsText | scripts/build_sqlite_warehouse.py:64-67 | `astype(str)` keeps a cell's text, and gives `nan` exactly for a missing cell or a cell holding `nan` |
| Records.Revenue | scripts/build_sqlite_warehouse.py:90 | at a positive price revenue is negative exactly for a negative quantity and positive exactly for a positive one |
| Cleaning.ParseTimestamps | scripts/build_sqlite_warehouse.py:52-53 | every row kept has an invoice date that parsed to the stored timestamp, and the result is no longer than the input |
| Cleaning.ParseTimestampsPicks | scripts/build_sqlite_warehouse.py:52-53 | the rows kept are the input rows at strictly increasing positions, so each once and in input order, and every row whose date parses is among them |
| Cleaning.ParseNumerics | scripts/build_sqlite_warehouse.py:56-58 | every row kept has a quantity and a price that both parsed to the stored values |
| Cleaning.ParseNumericsPicks | scripts/build_sqlite_warehouse.py:56-58 | the rows kept are the input rows, with their timestamps, at strictly increasing positions, and every row whose quantity and price both parse is among them |
| Cleaning.DropInvalid | scripts/build_sqlite_warehouse.py:61 | every row kept has a nonzero quantity and a positive price |
| Cleaning.DropInvalidPicks | scripts/build_sqlite_warehouse.py:60-61 | the rows kept are the input rows at strictly increasing positions, and every row with a nonzero quantity and a positive price, returns included, is among them |
| Cleaning.Classify | scripts/build_sqlite_warehouse.py:52-61 | a row is rejected for its date exactly when the date does not parse, and for its numbers exactly when the date parses but a number does not; it is accepted exactly when all three parse with quantity nonzero and price positive, carrying the parsed values |
| Cleaning.Survivors | scripts/build_sqlite_warehouse.py:52-61 | every surviving row is one the three filters accept, with the values they parsed |
| Cleaning.SurvivorsPicks | scripts/build_sqlite_warehouse.py:52-61 | survivor k is the accepted row at position `idx[k]`, the positions increase strictly, and every accepted row's position is among them: the accepted rows, each once, in input order |
| Cleaning.SurvivorsKeepValidRows | scripts/build_sqlite_warehouse.py:52-61 | no row the filters accept is lost |
| Cleaning.ReturnsAreKept | scripts/build_sqlite_warehouse.py:60-61 | a row with a negative quantity and a positive price whose date parses survives, with its negative quantity |
| Cleaning.StagesAgree | scripts/build_sqlite_warehouse.py:52-61 | running the three frame-wide filters one after another keeps exactly the rows the per-row classification accepts, in their original order |
| Cleaning.CastCustomerId | scripts/build_sqlite_warehouse.py:71-72 | a missing or non-numeric id becomes null; a whole number within the `Int64` range is cast to that integer; any other number cannot be cast |
| Cleaning.IntTextIsStripped | scripts/build_sqlite_warehouse.py:72 | the text of a cast id has no whitespace at either end |
| Cleaning.IntTextIsKept | scripts/build_sqlite_warehouse.py:72-73 | the text of a cast id is unchanged by strip, is not a null rendering nor `GUEST`, and is integer text |
| Cleaning.NullRenderingIsStripped | scripts/build_sqlite_warehouse.py:72-73 | the null rendering `<NA>` is unchanged by strip |
| Cleaning.CustomerText | scripts/build_sqlite_warehouse.py:72-73 | the normalised id is `GUEST` exactly for a null id, is otherwise the decimal text of the cast integer, and is always a valid customer text |
| Cleaning.CustomerTextInjective | scripts/build_sqlite_warehouse.py:72-73 | two ids normalise alike exactly when their casts are equal: all guests merge, and nothing else does |
| Cleaning.FloatIdBecomesIntegerText | scripts/build_sqlite_warehouse.py:70-73 | the float id `12345.0` is cast to 12345 and normalised to the text `12345` |
| Cleaning.Derive | scripts/build_sqlite_warehouse.py:64-91 | the record keeps the parsed timestamp, quantity and price and the normalised id, has its four text fields stripped (a missing cell as `nan`), and is well formed whenever the quantity is nonzero, the price positive and the id valid |
| Cleaning.CleanRow | scripts/build_sqlite_warehouse.py:64-91 | a row yields no record exactly when its customer id cannot be cast; a surviving row's record is well formed |
| Cleaning.MapAll | scripts/build_sqlite_warehouse.py:71-72 | a column-wide conversion succeeds exactly when every row converts, and then gives each row's result in order |
| Cleaning.Standardize | scripts/build_sqlite_warehouse.py:64-91 | the run goes on exactly when every customer id can be cast, and otherwise fails with the cast error; on success no row is dropped or reordered, and each becomes its derived record |
| Cleaning.StandardizeWellFormed | scripts/build_sqlite_warehouse.py:61-91 | every record derived from rows that passed line 61 is well formed |
| Cleaning.Clean | scripts/build_sqlite_warehouse.py:52-91 | cleaning fails only with the cast error; a cleaned frame is no longer than the input and every record in it is well formed |
| Cleaning.CleanSucceeds | scripts/build_sqlite_warehouse.py:52-73 | cleaning succeeds exactly when every row that passes the three filters has a customer id the `Int64` cast accepts |
| Cleaning.CleanRecordsComeFromValidRows | scripts/build_sqlite_warehouse.py:52-91 | record k is derived from the accepted row at position `idx[k]`, the positions increase strictly, and every accepted row has its record: one record per accepted row, in input order |
| Cleaning.ReturnFlagMatchesRevenue | scripts/build_sqlite_warehouse.py:88-91 | `is_return` is 1 exactly when the quantity is negative, exactly when revenue is negative; it is 0 exactly when revenue is positive |
| Cleaning.QuarterContainsMonth | scripts/build_sqlite_warehouse.py:79-82 | a cleaned record's quarter is in 1..4 and contains its month; year and month come from its invoice timestamp |
| Dimensions.FirstByKey | scripts/build_sqlite_warehouse.py:157-186 | inserting rows one by one with insert-or-ignore adds rows of the input whose keys were absent, with no key twice, and adds exactly the new keys |
| Dimensions.FirstByKeyPicks | scripts/build_sqlite_warehouse.py:157-186 | the rows added are the input rows at strictly increasing positions, and those positions are exactly the first occurrences of the keys that were absent: the first row of each new key, in input order |
| Dimensions.InsertStep | scripts/build_sqlite_warehouse.py:158 | one insert-or-ignore step appends the row exactly when its key is new, and the rest proceeds with that key known |
| Dimensions.Distinct | scripts/build_sqlite_warehouse.py:157 | `drop_duplicates()` keeps pairwise distinct rows of the input, and every input row is among them |
| Dimensions.DedupThenInsert | scripts/build_sqlite_warehouse.py:157-158 | deduplicating before insert-or-ignore does not change what is inserted |
| Dimensions.DistinctThenLoad | scripts/build_sqlite_warehouse.py:157-186 | loading the deduplicated column into an empty table gives what loading the whole column gives |
| Dimensions.UniqueKeysCount | scripts/build_sqlite_warehouse.py:110 | rows with pairwise different keys are as many as their keys |
| Dimensions.OnePerKey | scripts/build_sqlite_warehouse.py:157-186 | an empty table after insert-or-ignore has unique keys, exactly the column's keys, and one row per distinct key |
| Dimensions.Enumerate | scripts/build_sqlite_warehouse.py:109 | the rows keep their insertion order, and their `AUTOINCREMENT` keys are positive, strictly increasing and never above the row count |
| Dimensions.AppendIndexed | scripts/build_sqlite_warehouse.py:109-110 | appending a row with a new key under the next surrogate keeps the key index exact |
| Dimensions.Table.constructor | scripts/build_sqlite_warehouse.py:108-111 | a new table is empty and valid |
| Dimensions.Table.InsertOrIgnore | scripts/build_sqlite_warehouse.py:158 | an existing key leaves the table unchanged, keeping its surrogate; a new key is appended under the next surrogate; the table stays valid |
| Dimensions.Table.InsertAll | scripts/build_sqlite_warehouse.py:157-158 | the table gains exactly the first row for each key it lacked, in order, its key set grows by the inserted keys, and every existing key keeps its surrogate |
| Dimensions.Table.Published | scripts/build_sqlite_warehouse.py:193-196 | reading a valid table back pairs each row, in order, with the surrogate key its `UNIQUE` index holds for the row's natural key |
| Dimensions.NoneIgnored | scripts/build_sqlite_warehouse.py:157-158 | rows whose natural keys are pairwise different and new to the table are all inserted: insert-or-ignore ignores none |
| Dimensions.ValidTableKeys | scripts/build_sqlite_warehouse.py:108-127 | in a valid table natural keys are unique, the index holds exactly the rows' keys, the surrogates are exactly 1 up to the row count, and no two keys share a surrogate |
| Facts.Matches | scripts/build_sqlite_warehouse.py:216-219 | a join on a natural key finds nothing exactly when the key is absent |
| Facts.Find | scripts/build_sqlite_warehouse.py:216-219 | the lookup is empty exactly when the key is absent, and otherwise names an entry with that key |
| Facts.MatchesUnique | scripts/build_sqlite_warehouse.py:216-219 | with unique natural keys a join finds at most one entry, the one the lookup names |
| Facts.MergeLeft | scripts/build_sqlite_warehouse.py:216 | a left merge never yields fewer rows than it was given, and every input row comes out with the key of its first matching entry, or with none |
| Facts.Joined | scripts/build_sqlite_warehouse.py:216 | a row joins to at least one row, the first carrying the key of its first matching entry |
| Facts.MergeLeftHolds | scripts/build_sqlite_warehouse.py:216 | any row of the frame comes out of the left merge with its first-match key |
| Facts.MergeLeftKeeps | scripts/build_sqlite_warehouse.py:216 | every input row comes out separately, at strictly increasing positions, with the key of its first matching entry, whatever the dimension holds |
| Facts.MergeLeftUnique | scripts/build_sqlite_warehouse.py:215-220 | a left merge on a unique key keeps the row count and order and gives each row its lookup result |
| Facts.Resolve | scripts/build_sqlite_warehouse.py:215-220 | the four left merges never yield fewer rows than the cleaned records, and each record comes out with the four keys of its first matching entries |
| Facts.ResolveKeeps | scripts/build_sqlite_warehouse.py:215-220 | whatever the dimensions hold, every cleaned record comes out separately and in order, with the four keys of its first matching entries |
| Facts.ResolveUnique | scripts/build_sqlite_warehouse.py:215-220 | the four merges keep one fact row per cleaned record, in order, each carrying the four lookup results for its natural keys |
| Facts.CountMissing | scripts/build_sqlite_warehouse.py:222 | the missing count is at most the row count, and it is zero exactly when every row has the key |
| Facts.MissingCounts | scripts/build_sqlite_warehouse.py:222 | each of the four counts is at most the number of fact rows, and is zero exactly when every fact row has that key |
| Facts.WarnsOnMissingKey | scripts/build_sqlite_warehouse.py:223-224 | the warning is printed exactly when some fact row misses one of its four keys |
| Facts.CountMissingIsAbsent | scripts/build_sqlite_warehouse.py:222 | counting rows without a key equals counting records whose natural key the dimension lacks |
| Facts.MissingCountsExact | scripts/build_sqlite_warehouse.py:222 | each of the four missing counts is the number of cleaned records whose natural key is absent from that dimension |
| Facts.CoveredResolvesFully | scripts/build_sqlite_warehouse.py:215-224 | when the dimensions hold every natural key, each fact row keeps its record and gets all four keys from entries with its natural keys, all counts are zero and no warning is printed |
| Warehouse.LoadTable | scripts/build_sqlite_warehouse.py:157-186 | creating a table and filling it from the deduplicated column publishes the functional dimension load |
| Warehouse.LoadDimension | scripts/build_sqlite_warehouse.py:157-186 | a loaded dimension is no longer than its column, each entry is a row of the column, and entry i has surrogate key i + 1 |
| Warehouse.LoadDimensionInOrder | scripts/build_sqlite_warehouse.py:157-186 | entry k, with surrogate k + 1, is the first row of its natural key at position `idx[k]` of the column, the positions increase strictly, and every first occurrence has its entry: surrogates follow first-seen order |
| Warehouse.Project | scripts/build_sqlite_warehouse.py:41-48 | one row of the eight looked-up cells per input row, in order |
| Warehouse.Load | scripts/build_sqlite_warehouse.py:154-224 | the load keeps the column mapping and the cleaned rows, each dimension is no longer than the cleaned frame, and every cleaned record is among the facts with the keys its loaded dimensions give it (FactsResolveCompletely proves exactly one fact row per record, in order) |
| Warehouse.Build | scripts/build_sqlite_warehouse.py:41-224 | a run fails only with a missing column or the cast error; a successful run uses the resolved columns, and its cleaned rows are well formed and no more than the input rows |
| Warehouse.BuildWarehouse | scripts/build_sqlite_warehouse.py:41-224 | the step-by-step run produces exactly the value `Build` describes, error included |
| Warehouse.BuildIsLoad | scripts/build_sqlite_warehouse.py:52-91 | a successful run found its columns, cleaned its rows, and loaded them; every cleaned record is well formed |
| Warehouse.LoadDimensionExact | scripts/build_sqlite_warehouse.py:157-186 | a loaded dimension has one entry per distinct natural key of its column, unique keys, surrogates 1 up to its size, and entries drawn from the column |
| Warehouse.EnumerateOnePerKey | scripts/build_sqlite_warehouse.py:109-127 | numbering rows that hold each key of the column once gives one entry per natural key |
| Warehouse.KeyFrameCovers | scripts/build_sqlite_warehouse.py:193-196 | a dimension read back has unique natural keys and contains every key of its column |
| Warehouse.DimensionsOnePerKey | scripts/build_sqlite_warehouse.py:157-186 | all four dimensions hold exactly one entry per distinct natural key among the cleaned rows |
| Warehouse.ProductsKeyedByPair | scripts/build_sqlite_warehouse.py:117 | two records with the same stock code and different descriptions get two distinct product entries |
| Warehouse.EntryOf | scripts/build_sqlite_warehouse.py:157-186 | every row of a column has an entry with its key in the loaded dimension |
| Warehouse.SameDaySameDateRow | scripts/build_sqlite_warehouse.py:78-82 | a well-formed record's date attributes follow from its day, so two records of the same day have the same date row |
| Warehouse.DatesConsistent | scripts/build_sqlite_warehouse.py:177-185 | every `dim_date` entry has the year, month, month name and quarter of its day |
| Warehouse.NoInsertIgnored | scripts/build_sqlite_warehouse.py:157-186 | for well-formed cleaned rows, insert-or-ignore after `drop_duplicates()` inserts every deduplicated row into each of the four dimensions |
| Warehouse.DistinctDaysDiffer | scripts/build_sqlite_warehouse.py:177-185 | two different deduplicated date rows of well-formed records are of different days |
| Warehouse.DistinctAllInserted | scripts/build_sqlite_warehouse.py:157-176 | a dimension keyed by its whole row inserts every deduplicated row |
| Warehouse.EntriesFromColumn | scripts/build_sqlite_warehouse.py:157-186 | what holds of every row of a column holds of every entry loaded from it |
| Warehouse.LoadCovers | scripts/build_sqlite_warehouse.py:157-220 | the dimensions loaded from the cleaned rows have unique natural keys and hold every record's natural keys |
| Warehouse.FactsResolveCompletely | scripts/build_sqlite_warehouse.py:215-220 | after the load the merges keep one fact row per cleaned record, in order, and every row gets all four surrogate keys from the entries holding its natural keys |
| Warehouse.NoKeyMissing | scripts/build_sqlite_warehouse.py:222-224 | after the load every missing count is zero and no warning is printed |
| Warehouse.BuildMissingColumn | scripts/build_sqlite_warehouse.py:41-48 | a run whose column lookup fails stops with the first required name, in lookup order, that no header matches |
| Warehouse.BuildUncastable | scripts/build_sqlite_warehouse.py:71-72 | once the columns are found, a run fails only because a customer id cannot be cast to `Int64` |

## Left out

- Reading the CSV is not modelled: the existence check, the `ISO-8859-1` decoding and pandas' column type inference. A frame is given as rows of text cells by header. A cell that pandas would read as a number, such as an invoice number, is therefore taken as the text in the file, not as `str()` of the number.
- The storage engine is not modelled: the SQLite connection, `PRAGMA`, the DDL text, commits, the temporary tables and `to_sql`. Only the `UNIQUE` and `INSERT OR IGNORE` behaviour is kept. `INSERT … SELECT` is taken to visit the temporary table in the order `to_sql` wrote it.
- `AUTOINCREMENT` values are modelled as insertion position plus one. That is what a table freshly created by the `DROP`/`CREATE` script hands out as long as no insert is ignored. SQLite may leave a gap after an insert that fails a uniqueness constraint; here no insert is ever ignored, because each temporary table is deduplicated on the natural key and a day's date attributes are fixed by the day (`NoInsertIgnored`).
- `SELECT … FROM dim_*` without `ORDER BY` is taken to return rows in insertion order; SQLite may return them in the order of the `UNIQUE` index instead. No result depends on it: the merges join on unique natural keys, whatever the row order.
- The module-level directory creation, the path constants, every `print`, the sanity-check queries and the CSV exports are output or filesystem I/O and are not modelled.
- Lines 226-243 are not modelled: the `fact_out` projection and its append to `fact_sales`.
- The parsers' internals are not modelled. `to_datetime` and `to_numeric` are parameters. Quantity is parsed directly as an integer.
- The float-to-int truncation of line 88 is not modelled; it happens after the nonzero filter, so a quantity of 0.5 would be kept and then stored as 0.
- `strftime` text is not modelled. Timestamps and `full_date` are compared as date values, and `%b` is the fixed C-locale table of month names.
- Prices and revenue are exact reals; the rounding of `astype(float)` and of the product is not modelled.
- Text.Lower: lower-cases ASCII letters only, whereas Python's `str.lower()` also maps other Unicode letters. Header matching is therefore weaker for non-ASCII headers.
- The counts of dropped rows per filter are not modelled, because the script neither computes nor prints them.
