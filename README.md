# justwatch-cli, result-to-table pipeline

justwatch-cli is a small command-line tool. It searches the JustWatch
catalogue for a title and prints the matches as a terminal table. Each row
gives the title, optionally its JustWatch id, its release year, optionally an
IMDb rating, the streaming services that carry it, and optionally the
services that rent it. Services the user subscribes to are highlighted.

The repository holds three near-duplicate copies of the per-query logic:

- `justwatch_cli/jw.py`: the packaged tool (module `JustwatchCli`).
- `justwatch-cli/jw.py`: the stand-alone script setup.py installs (module `JustwatchCliScript`).
- `jw.py`: the root-level single-file version (module `Legacy`).

This project models what one query does once the search service has
answered. The answers of the two network services are inputs to the model:

- The search is a `seq<SearchResult>`.
- The rating service is a function `Lookup` from key to `LookupOutcome`: a
  movie record (with or without a `rating` key), a falsy answer, or an
  exception.

What the query prints is an `Output`:

- `Message("No results found")`;
- `Rendered(columns, rows)`, with the table's header cells and its rows of cells;
- `Crashed`, when an exception escapes the query.

Shared modules:

- `Text`: the Python built-ins used. These are `str.lower` (ASCII letters
  only), `str.join`, `str` of an int, and the slice `s[2:]`.
- `Common`: the entities, the Python truthiness of optional years and ids,
  `range` membership, and the `Table` object that rows are added to.
- `Services`: `colorize_services`. It behaves identically in the two copies
  that have it (one uses a generator inside `any`, the other a list).
- `Offers`: splitting offers into flatrate and rent names.
- `Layout`: which columns are shown, the `None`-slot row list, and the
  filtering of `None`s out of it.
- `Selection`: the loop shape all three copies share. It walks the results in
  order, skips filtered ones, and appends one row each. One variant stops at
  the first row that raises.

Each copy's `do_query` is a method with a loop over the results that adds
rows to a `Table`. It is proved equal to a function of its inputs
(`ExpectedOutput`), and the lemmas state the properties of that function.
The inner loops are methods proved against their specification functions:
`PartitionOffers`, `FlatrateNames` and `ColorizeServices`.

Where the three copies differ as written, each module follows its own file:

- `justwatch-cli/jw.py` names a misspelled exception class in its handler.
  Evaluating that name raises `NameError` exactly when the lookup or the
  `['rating']` access raises, so there a failing lookup or a movie record
  without a rating crashes the query instead of showing "Error".
- In that same file, `main()` assigns `VERBOSE` without `global`, so the
  module-level flag that `do_query` reads stays `False`.
- `jw.py` slices `imdb_id` with no guard and has no `try`. A missing id, a
  raising lookup and a record without a `rating` key all crash the query. This
  is modelled as `Crashed` rather than as a precondition on the input.

## Model

| member | source | states |
|---|---|---|
| Text.LowerEqIff | justwatch_cli/jw.py:51 | two names lower to the same string exactly when they have equal length and agree character by character up to ASCII case, which is the case-insensitive comparison `offer.lower() == i.lower()` |
| Text.JoinConcat | justwatch_cli/jw.py:55 | joining two non-empty lists is joining each and putting the separator between them |
| Text.NatToString | justwatch_cli/jw.py:116 | `str` of a natural number is a non-empty string of decimal digits with no leading zero unless the number is 0 |
| Text.IntToStringRoundTrip | justwatch_cli/jw.py:116 | the printed release year can be read back as the same integer |
| Text.DropTwoSplit | justwatch_cli/jw.py:108 | the lookup key `imdb_id[2:]` is the id without its first two characters, and is empty for an id shorter than two characters |
| Common.YearTextSpec | justwatch_cli/jw.py:116 | `str(result.release_year)` prints "None" for a missing year, and otherwise a numeral that reads back as the year and is never "None" |
| Common.YearTextInjective | justwatch_cli/jw.py:116 | two results print the same released cell exactly when they carry the same optional year |
| Common.Table.constructor | justwatch_cli/jw.py:59 | a new table has the given title and no columns or rows |
| Common.Table.AddColumn | justwatch_cli/jw.py:60-74 | `add_column` appends one header and changes nothing else |
| Common.Table.AddRow | justwatch_cli/jw.py:123 | `add_row` appends one row and changes nothing else |
| Selection.SelectStep | justwatch_cli/jw.py:90-123 | one more loop iteration adds the next result's row exactly when it passes the filter |
| Selection.SelectConcat | justwatch_cli/jw.py:90-123 | rows come out in result order: the rows of a concatenation are those of each part in turn |
| Selection.SelectEmptyIff | justwatch_cli/jw.py:90-95 | no row is added exactly when the filter rejects every result |
| Selection.SelectAll | justwatch_cli/jw.py:90-123 | with nothing filtered, there is one row per result and the i-th row belongs to the i-th result |
| Selection.SelectOrigin | justwatch_cli/jw.py:90-123 | every row added is the row of some result that passed the filter |
| Selection.SelectOrFailStep | justwatch-cli/jw.py:58-84 | one more iteration either crashes on the next kept result or adds its row |
| Selection.FailurePersists | justwatch-cli/jw.py:58-84 | once an exception escapes, the rest of the results make no difference |
| Selection.SelectOrFailNoneIff | justwatch-cli/jw.py:58-84 | the loop crashes exactly when building some kept result's row raises |
| Selection.SelectOrFailEmptyIff | justwatch-cli/jw.py:58-84 | a loop that does not crash adds no row exactly when every result is filtered out |
| Selection.SelectOrFailOrigin | justwatch-cli/jw.py:58-84 | every row of a loop that does not crash is the row of some kept result |
| Selection.SelectOrFailAll | jw.py:23-33 | with no filter and no crash, there is one row per result, in order |
| Services.MatchesAnyIff | justwatch_cli/jw.py:51 | the `any(...)` test holds exactly when the lowered name equals some lowered service name as a whole string |
| Services.CellHighlightedIff | justwatch_cli/jw.py:47-55 | a name is wrapped in `[bright_green]`…`[/bright_green]` exactly when it case-insensitively equals an entry of AVAILABLE_SERVICES |
| Services.ColorizeServices | justwatch_cli/jw.py:47-55 | the loop returns the `", "`-join of the cells of the names, in order |
| Services.ColorizedEmpty | justwatch_cli/jw.py:55 | an empty list colorizes to the empty string |
| Services.ColorizedSingle | justwatch_cli/jw.py:55 | a single name colorizes to its cell, with no separator |
| Services.ColorizedConcat | justwatch_cli/jw.py:47-55 | colorizing two non-empty lists is colorizing each and joining with `", "` |
| Services.NetflixExamples | justwatch_cli/jw.py:47-55 | "Netflix" is highlighted while "Netflix Extra" is not: no substring matching |
| Offers.PartitionOffers | justwatch_cli/jw.py:96-103 | the streaming list holds exactly the names of offers whose type lowercases to "flatrate", and the rent list those for "rent", both in offer order |
| Offers.KindNamesConcat | justwatch_cli/jw.py:99-103 | the partition keeps offer order: the names of a concatenation are the names of each part in turn |
| Offers.KindNamesMember | justwatch_cli/jw.py:99-103 | a name is in a list exactly when some offer of that kind carries it |
| Offers.PartitionCovers | justwatch_cli/jw.py:99-103 | the two lists together are never longer than the offers, and they hold every offer exactly when every offer is flatrate or rent |
| Layout.ShownColumnsSpec | justwatch_cli/jw.py:57-76 | exactly the shown columns appear, each once, in the fixed order; there are three plus one per switch that is on |
| Layout.HeaderRowMatchesColumns | justwatch_cli/jw.py:57-76 | the conditional `add_column` calls produce the headers of exactly the shown columns, in order |
| Layout.BuildTable | justwatch_cli/jw.py:57-76 | `build_table` returns a fresh table titled "Results" with no rows, whose header cells are the conditional columns in order |
| Layout.DefaultColumns | justwatch_cli/jw.py:57-76 | with every switch off the headers are Title, released, streaming |
| Layout.PresentOfSix | justwatch_cli/jw.py:123 | filtering out the `None`s of a six-slot list keeps the present values in slot order |
| Layout.CellsForConcat | justwatch_cli/jw.py:115-123 | the cells of a concatenation of column lists are the cells of each part in turn |
| Layout.RowMatchesColumns | justwatch_cli/jw.py:115-123 | the row left after dropping the `None`s has one cell per shown column, and its i-th cell is the value of the i-th column |
| JustwatchCli.Config.YearRange | justwatch_cli/jw.py:36-39 | `year_range` contains exactly the years from year-5 up to, but excluding, year+5 |
| JustwatchCli.ScoreOf | justwatch_cli/jw.py:105-113 | "N/A" iff ratings are off, the id is falsy or the lookup is falsy; "Error" iff the lookup or the `rating` access raises; otherwise the rating; the key is the id without its first two characters |
| JustwatchCli.BuildRow | justwatch_cli/jw.py:96-123 | the loop body builds exactly the row the model assigns to a kept result |
| JustwatchCli.KeptRowsStep | justwatch_cli/jw.py:90-123 | one iteration adds the result's row exactly when the year filter keeps it |
| JustwatchCli.DoQuery | justwatch_cli/jw.py:78-128 | `do_query` prints exactly `ExpectedOutput`, the message for an empty search or an empty table and otherwise the built table |
| JustwatchCli.YearFilterWindow | justwatch_cli/jw.py:36-39 | with a target year and a truthy release year, a result is kept iff year-5 <= release < year+5; year+5 is skipped and year-5 kept |
| JustwatchCli.YearFilterOff | justwatch_cli/jw.py:92 | a zero target year (the `--year` default, line 143), or a missing or zero release year, never skips a result |
| JustwatchCli.KeptRowsConcat | justwatch_cli/jw.py:90-123 | rows come out in search order |
| JustwatchCli.KeptRowsEmptyIff | justwatch_cli/jw.py:90-128 | no row is produced exactly when every result is filtered out |
| JustwatchCli.KeptRowsAllKept | justwatch_cli/jw.py:90-123 | with nothing filtered, there is one row per result, in search order |
| JustwatchCli.RowShape | justwatch_cli/jw.py:57-123 | each row is the cells of the shown columns in column order, as many as the headers: 3 + verbose + imdb + renting |
| JustwatchCli.KeptRowsWidth | justwatch_cli/jw.py:57-123 | every row has as many cells as the table has columns |
| JustwatchCli.ScoreCell | justwatch_cli/jw.py:105-116 | with ratings on, the score cell (after title, released and the optional ID) is "N/A", "Error" or the rating, as the lookup outcome says |
| JustwatchCli.StreamingCellOf | justwatch_cli/jw.py:96-118 | the streaming cell colorizes the flatrate names, or is "Not available for streaming" when there are none |
| JustwatchCli.RentCellOf | justwatch_cli/jw.py:97-121 | with renting on, the last cell colorizes the rent names or says "Not available for rent"; with renting off there is no renting column |
| JustwatchCli.OutputCases | justwatch_cli/jw.py:84-128 | once the search has answered, the query never crashes; it prints "No results found" iff every result is filtered out (vacuously for an empty search), and otherwise the configured columns with full-width rows |
| JustwatchCli.DefaultYearKeepsAll | justwatch_cli/jw.py:143 | with the default year a non-empty search gives one row per result, in order |
| JustwatchCli.MatrixOffers | justwatch_cli/jw.py:99-103 | an offer typed "FLATRATE" is a streaming offer and not a rental |
| JustwatchCli.MatrixValues | justwatch_cli/jw.py:115-121 | the cell values of a 1999 title streaming on Netflix, with ratings off |
| JustwatchCli.MatrixYearText | justwatch_cli/jw.py:116 | `str(1999)` is "1999" |
| JustwatchCli.MatrixRow | justwatch_cli/jw.py:115-123 | with all switches off, that title's row is its title, "1999" and the highlighted Netflix |
| JustwatchCli.MatrixScenario | justwatch_cli/jw.py:78-128 | a query for that title with target year 1999 prints a three-column table with that one row |
| JustwatchCliScript.ScoreOf | justwatch-cli/jw.py:72-80 | the score is missing (the query crashes) iff ratings are on, the id is truthy and the lookup or `rating` access raises; it is the rating iff the lookup returns a rated record; "Error" never occurs |
| JustwatchCliScript.RowOf | justwatch-cli/jw.py:72-84 | building a kept result's row crashes exactly when its lookup or the `['rating']` access raises |
| JustwatchCliScript.BuildRow | justwatch-cli/jw.py:63-84 | the loop body builds exactly the modelled row, or reports the crash |
| JustwatchCliScript.KeptRowsStep | justwatch-cli/jw.py:58-84 | one iteration crashes on, adds, or skips the next result as the model says |
| JustwatchCliScript.CrashPersists | justwatch-cli/jw.py:73-80 | a crash on one result is a crash of the whole query |
| JustwatchCliScript.KeptRowsSkip | justwatch-cli/jw.py:60-62 | a result outside the year window adds no row |
| JustwatchCliScript.KeptRowsAppend | justwatch-cli/jw.py:63-84 | a kept result whose row is built adds exactly that row after the earlier ones |
| JustwatchCliScript.KeptRowsCrash | justwatch-cli/jw.py:73-80 | a kept result whose lookup or `['rating']` access raises crashes the whole query |
| JustwatchCliScript.OutputOfRows | justwatch-cli/jw.py:86-89 | once every result is walked without a crash, the table is printed if it has a row and "No results found" otherwise |
| JustwatchCliScript.DoQuery | justwatch-cli/jw.py:34-89 | `do_query` prints exactly `ExpectedOutput`, building the columns inline and crashing at the first kept result whose lookup or `['rating']` access raises |
| JustwatchCliScript.YearFilterWindow | justwatch-cli/jw.py:60 | with truthy target and release years, a result is kept iff year-5 <= release < year+5 |
| JustwatchCliScript.YearFilterOff | justwatch-cli/jw.py:60 | no target year (the default), a zero one, or a falsy release year keeps the result |
| JustwatchCliScript.CrashIff | justwatch-cli/jw.py:58-84 | the query crashes exactly when some kept result has ratings on, a truthy id, and a lookup that raises or lacks a rating |
| JustwatchCliScript.KeptRowsEmptyIff | justwatch-cli/jw.py:58-89 | without a crash, no row is produced exactly when every result is filtered out |
| JustwatchCliScript.RowShape | justwatch-cli/jw.py:41-84 | each row is the cells of the shown columns in column order, 3 + verbose + imdb + renting of them |
| JustwatchCliScript.KeptRowsWidth | justwatch-cli/jw.py:41-84 | every row has one cell per shown column |
| JustwatchCliScript.OutputCases | justwatch-cli/jw.py:37-89 | crash iff some kept result's lookup or `['rating']` access raises; otherwise "No results found" iff every result is filtered out (vacuously for an empty search), else the configured columns with full-width rows |
| JustwatchCliScript.MainHidesId | justwatch-cli/jw.py:104 | under `main()` the `--verbose` switch changes nothing, because the assignment binds a local and the global flag read at lines 45 and 82 stays False: no "ID" header, and each row has 3 + imdb + renting cells |
| JustwatchCliScript.NoIdColumn | justwatch-cli/jw.py:45-46 | with the flag off no header is "ID" |
| Legacy.ScoreOf | jw.py:28-32 | with USE_IMDB on, the score is missing (the query crashes) iff the id is missing or the lookup or `rating` access raises; "N/A" iff the lookup is falsy; otherwise the rating; never "Error" |
| Legacy.RowOf | jw.py:28-33 | a row crashes exactly when its score does, and otherwise has five cells |
| Legacy.FlatrateNames | jw.py:24-27 | the loop collects exactly the names of the flatrate offers, in offer order |
| Legacy.RowsStep | jw.py:23-33 | each iteration crashes on or adds the next result's row |
| Legacy.DoQuery | jw.py:10-36 | `do_query` prints exactly `ExpectedOutput`: the message for an empty search, the crash, or the five-column table |
| Legacy.OutputCases | jw.py:12-36 | "No results found" iff the search is empty; crash iff some score raises; otherwise the five fixed columns and one row per result in order |
| Legacy.RowCells | jw.py:28-33 | a row is title, entry id, year, score ("N/A" for a falsy lookup, the rating for a record) and the unhighlighted `", "`-join of the flatrate names |
| Legacy.NoFlatrateEmptyCell | jw.py:24-33 | with no flatrate offer the offers cell is empty |
| Legacy.NetflixNotHighlighted | jw.py:24-33 | a Netflix flatrate offer is listed as plain "Netflix", whereas the highlighting copies wrap it |

## Left out

- The network calls (`search`, `Cinemagoer.get_movie`) become inputs. The
  language, country and result limit only feed the search, so they are
  carried in `Config` but affect nothing modelled.
- A search that raises (network or API error) is not modelled: every query
  starts from the results the search returned, so the "never crashes" and
  "crash iff" properties hold only once the search has answered.
- The model does not capture the order or the number of rating lookups. A
  lookup is a function of its key, so repeated lookups agree.
- Ratings are opaque text; the model applies no float formatting and does no
  arithmetic on them.
- `lower()` is modelled for ASCII letters only; Python's Unicode case mapping
  is not.
- Rich rendering is not modelled: column styles, markup interpretation, table
  layout, and how `add_row` pads or rejects rows whose cell count differs
  from the column count.
- Argument parsing, the interactive `input()` loop with its "exit" check,
  `KeyboardInterrupt` handling and `sys.exit` are not modelled. Only the
  effect of `main()` on the verbose flag of `justwatch-cli/jw.py` is kept
  (`MainOutput`).
- `vprint` logging is not modelled; it prints only and changes no state.
- BuildRow and BuildTable (for the script): the loop bodies and the script's
  inline `add_column` calls are split into methods of their own. The model
  does not capture where those statements sit in the source.
- Legacy.ScoreOf: a missing IMDb id in `jw.py` is modelled as the crash it
  causes, not as a precondition on the search results.
- `setup.py` is packaging metadata and is not part of this model; it is cited
  only for which script it installs.
