/** The stand-alone script, justwatch-cli/jw.py. Its `do_query` takes the
    options as keyword arguments, has an optional target year, and builds the
    table inline. Two things differ from the packaged tool as written:
    - its exception handler names an undefined class, so a lookup that raises
      (or a movie record without a "rating" key) makes evaluating the handler
      raise a NameError, which escapes the query: the query crashes instead of
      showing "Error";
    - `main()` assigns VERBOSE without a `global` declaration, so the
      module-level flag `do_query` reads stays false. */
module JustwatchCliScript {
  import opened Text
  import opened Common
  import opened Services
  import opened Offers
  import opened Layout
  import opened Selection

  /** The module-level VERBOSE flag; nothing ever sets it. */
  const VERBOSE := false

  /** The year filter: skip a result only when both its release year and the
      target year are truthy and the release year is outside
      `range(year-5, year+5)`. */
  predicate Keeps(result: SearchResult, year: Option<int>) {
    !(YearTruthy(result.releaseYear) && YearTruthy(year)
      && !IntRange(year.value - 5, year.value + 5).Contains(result.releaseYear.value))
  }

  /** Whether choosing the score for this result raises inside the `try`:
      the lookup itself raises, or it returns a record without a rating. */
  predicate ScoreRaises(result: SearchResult, useImdb: bool, lookup: Lookup) {
    useImdb && IdTruthy(result.imdbId) && lookup(DropTwo(result.imdbId.value)) in {Raises, Movie(None)}
  }

  /** The score chosen for one result; `None` when the exception escapes. The
      error sentinel is never produced. */
  function ScoreOf(useImdb: bool, imdbId: Option<string>, lookup: Lookup): (r: Option<Score>)
    ensures r.None? <==>
            useImdb && IdTruthy(imdbId) && lookup(DropTwo(imdbId.value)) in {Raises, Movie(None)}
    ensures r.Some? ==> r.value != LookupError
    ensures r.Some? && r.value.Rated? <==>
            useImdb && IdTruthy(imdbId) && lookup(DropTwo(imdbId.value)).Movie?
            && lookup(DropTwo(imdbId.value)).rating.Some?
    ensures r.Some? && r.value.Rated? ==> r.value.rating == lookup(DropTwo(imdbId.value)).rating.value
  {
    if useImdb && IdTruthy(imdbId) then
      match lookup(DropTwo(imdbId.value))
      case Raises => None
      case NoMovie => Some(NotAvailable)
      case Movie(None) => None
      case Movie(Some(rating)) => Some(Rated(rating))
    else Some(NotAvailable)
  }

  function ValuesOf(result: SearchResult, score: Score): RowValues {
    RowValues(
      result.title,
      result.entryId,
      YearText(result.releaseYear),
      ScoreText(score),
      StreamingCell(KindNames(result.offers, FLATRATE)),
      RentCell(KindNames(result.offers, RENT)))
  }

  /** The row added for one kept result; `None` when the query crashes on it. */
  function RowOf(result: SearchResult, useImdb: bool, renting: bool, verbose: bool, lookup: Lookup): (r: Option<seq<string>>)
    ensures r.None? <==> ScoreRaises(result, useImdb, lookup)
  {
    match ScoreOf(useImdb, result.imdbId, lookup)
    case None => None
    case Some(score) => Some(Present(Items(ValuesOf(result, score), verbose, useImdb, renting)))
  }

  /** The rows added for a list of results, or `None` once one kept result crashes. */
  function KeptRows(results: seq<SearchResult>, useImdb: bool, year: Option<int>, renting: bool,
                    verbose: bool, lookup: Lookup): Option<seq<seq<string>>>
  {
    SelectOrFail(results, KeepFilter(year), RowBuilder(useImdb, renting, verbose, lookup))
  }

  function KeepFilter(year: Option<int>): SearchResult -> bool {
    r => Keeps(r, year)
  }

  function RowBuilder(useImdb: bool, renting: bool, verbose: bool, lookup: Lookup): SearchResult -> Option<seq<string>> {
    r => RowOf(r, useImdb, renting, verbose, lookup)
  }

  /** What one call of `do_query` prints. */
  function ExpectedOutput(results: seq<SearchResult>, useImdb: bool, year: Option<int>, renting: bool,
                          verbose: bool, lookup: Lookup): Output {
    if |results| == 0 then Message(NO_RESULTS)
    else match KeptRows(results, useImdb, year, renting, verbose, lookup)
      case None => Crashed
      case Some(rows) =>
        if |rows| > 0 then Rendered(HeaderRow(verbose, useImdb, renting), rows)
        else Message(NO_RESULTS)
  }

  /** The loop body for a result that passed the year filter. */
  method BuildRow(result: SearchResult, useImdb: bool, renting: bool, verbose: bool, lookup: Lookup)
    returns (row: Option<seq<string>>)
    ensures row == RowOf(result, useImdb, renting, verbose, lookup)
  {
    var offers, rent := PartitionOffers(result.offers);
    var score := ScoreOf(useImdb, result.imdbId, lookup);
    if score.None? {
      return None;
    }
    var streamingCell := STREAMING_NONE;
    if offers != [] {
      streamingCell := ColorizeServices(offers);
    }
    var rentCell := RENT_NONE;
    if rent != [] {
      rentCell := ColorizeServices(rent);
    }
    var values := RowValues(result.title, result.entryId, YearText(result.releaseYear),
                            ScoreText(score.value), streamingCell, rentCell);
    row := Some(Present(Items(values, verbose, useImdb, renting)));
  }

  /** One more result: the rows so far, then that result's row if it is kept. */
  lemma KeptRowsStep(results: seq<SearchResult>, k: nat, useImdb: bool, year: Option<int>,
                     renting: bool, verbose: bool, lookup: Lookup)
    requires k < |results|
    ensures KeptRows(results[..k + 1], useImdb, year, renting, verbose, lookup)
            == match KeptRows(results[..k], useImdb, year, renting, verbose, lookup)
               case None => None
               case Some(rows) =>
                 if !Keeps(results[k], year) then Some(rows)
                 else match RowOf(results[k], useImdb, renting, verbose, lookup)
                   case None => None
                   case Some(row) => Some(rows + [row])
  {
    SelectOrFailStep(results, k, KeepFilter(year), RowBuilder(useImdb, renting, verbose, lookup));
  }

  /** Once a prefix of the results crashes, the whole query does. */
  lemma CrashPersists(results: seq<SearchResult>, k: nat, useImdb: bool, year: Option<int>,
                      renting: bool, verbose: bool, lookup: Lookup)
    requires k <= |results|
    requires KeptRows(results[..k], useImdb, year, renting, verbose, lookup).None?
    ensures KeptRows(results, useImdb, year, renting, verbose, lookup).None?
  {
    FailurePersists(results, k, KeepFilter(year), RowBuilder(useImdb, renting, verbose, lookup));
  }

  /** A filtered-out result adds nothing. */
  lemma KeptRowsSkip(results: seq<SearchResult>, k: nat, useImdb: bool, year: Option<int>,
                     renting: bool, verbose: bool, lookup: Lookup, rows: seq<seq<string>>)
    requires k < |results| && !Keeps(results[k], year)
    requires KeptRows(results[..k], useImdb, year, renting, verbose, lookup) == Some(rows)
    ensures KeptRows(results[..k + 1], useImdb, year, renting, verbose, lookup) == Some(rows)
  {
    KeptRowsStep(results, k, useImdb, year, renting, verbose, lookup);
  }

  /** A kept result whose row is built adds that row. */
  lemma KeptRowsAppend(results: seq<SearchResult>, k: nat, useImdb: bool, year: Option<int>,
                       renting: bool, verbose: bool, lookup: Lookup, rows: seq<seq<string>>, row: seq<string>)
    requires k < |results| && Keeps(results[k], year)
    requires KeptRows(results[..k], useImdb, year, renting, verbose, lookup) == Some(rows)
    requires RowOf(results[k], useImdb, renting, verbose, lookup) == Some(row)
    ensures KeptRows(results[..k + 1], useImdb, year, renting, verbose, lookup) == Some(rows + [row])
  {
    KeptRowsStep(results, k, useImdb, year, renting, verbose, lookup);
  }

  /** A kept result whose row raises crashes the whole query. */
  lemma KeptRowsCrash(results: seq<SearchResult>, k: nat, useImdb: bool, year: Option<int>,
                      renting: bool, verbose: bool, lookup: Lookup)
    requires k < |results| && Keeps(results[k], year)
    requires KeptRows(results[..k], useImdb, year, renting, verbose, lookup).Some?
    requires RowOf(results[k], useImdb, renting, verbose, lookup).None?
    ensures KeptRows(results, useImdb, year, renting, verbose, lookup).None?
  {
    KeptRowsStep(results, k, useImdb, year, renting, verbose, lookup);
    CrashPersists(results, k + 1, useImdb, year, renting, verbose, lookup);
  }

  /** A walk over all the results that did not crash prints its table, unless no row was kept. */
  lemma OutputOfRows(results: seq<SearchResult>, useImdb: bool, year: Option<int>, renting: bool,
                     verbose: bool, lookup: Lookup, rows: seq<seq<string>>)
    requires |results| > 0
    requires KeptRows(results, useImdb, year, renting, verbose, lookup) == Some(rows)
    ensures ExpectedOutput(results, useImdb, year, renting, verbose, lookup)
            == if |rows| > 0 then Rendered(HeaderRow(verbose, useImdb, renting), rows) else Message(NO_RESULTS)
  {
  }

  /** `do_query(query, use_imdb, lang, country, limit, year, renting)` on the
      results the search returned, reading the flag VERBOSE as `verbose`. */
  method DoQuery(results: seq<SearchResult>, useImdb: bool, year: Option<int>, renting: bool,
                 verbose: bool, lookup: Lookup)
    returns (out: Output)
    ensures out == ExpectedOutput(results, useImdb, year, renting, verbose, lookup)
  {
    if |results| == 0 {
      return Message(NO_RESULTS);
    }
    var table := BuildTable(verbose, useImdb, renting);
    var c := 0;
    while c < |results|
      invariant 0 <= c <= |results|
      invariant table.columns == HeaderRow(verbose, useImdb, renting)
      invariant KeptRows(results[..c], useImdb, year, renting, verbose, lookup) == Some(table.rows)
    {
      var result := results[c];
      if !Keeps(result, year) {
        KeptRowsSkip(results, c, useImdb, year, renting, verbose, lookup, table.rows);
        c := c + 1;
        continue;
      }
      var row := BuildRow(result, useImdb, renting, verbose, lookup);
      if row.None? {
        KeptRowsCrash(results, c, useImdb, year, renting, verbose, lookup);
        return Crashed;
      }
      KeptRowsAppend(results, c, useImdb, year, renting, verbose, lookup, table.rows, row.value);
      table.AddRow(row.value);
      c := c + 1;
    }
    assert results[..c] == results;
    OutputOfRows(results, useImdb, year, renting, verbose, lookup, table.rows);
    if table.RowCount() > 0 {
      out := Rendered(table.columns, table.rows);
    } else {
      out := Message(NO_RESULTS);
    }
  }

  // ---------------------------------------------------------------------
  // Properties

  /** With a truthy target year and release year, a result is kept exactly
      inside the half-open window. */
  lemma YearFilterWindow(result: SearchResult, year: Option<int>)
    requires YearTruthy(year) && YearTruthy(result.releaseYear)
    ensures Keeps(result, year) <==> year.value - 5 <= result.releaseYear.value < year.value + 5
  {
  }

  /** No target year (the default), a zero one, or a falsy release year keeps the result. */
  lemma YearFilterOff(result: SearchResult, year: Option<int>)
    requires !YearTruthy(year) || !YearTruthy(result.releaseYear)
    ensures Keeps(result, year)
  {
  }

  /** The query crashes exactly when some kept result has a truthy id, ratings
      are on, and its lookup raises or returns a record without a rating. */
  lemma CrashIff(results: seq<SearchResult>, useImdb: bool, year: Option<int>, renting: bool,
                 verbose: bool, lookup: Lookup)
    ensures KeptRows(results, useImdb, year, renting, verbose, lookup).None? <==>
            exists i :: 0 <= i < |results| && Keeps(results[i], year) && ScoreRaises(results[i], useImdb, lookup)
  {
    SelectOrFailNoneIff(results, KeepFilter(year), RowBuilder(useImdb, renting, verbose, lookup));
  }

  /** Without a raising lookup or `['rating']` access, no row is produced exactly when everything is filtered out. */
  lemma KeptRowsEmptyIff(results: seq<SearchResult>, useImdb: bool, year: Option<int>, renting: bool,
                         verbose: bool, lookup: Lookup)
    requires KeptRows(results, useImdb, year, renting, verbose, lookup).Some?
    ensures KeptRows(results, useImdb, year, renting, verbose, lookup).value == [] <==>
            forall i :: 0 <= i < |results| ==> !Keeps(results[i], year)
  {
    SelectOrFailEmptyIff(results, KeepFilter(year), RowBuilder(useImdb, renting, verbose, lookup));
  }

  /** The shown columns match the cells left after dropping the `None`s, in
      number and in order. */
  lemma RowShape(result: SearchResult, useImdb: bool, renting: bool, verbose: bool, lookup: Lookup)
    requires RowOf(result, useImdb, renting, verbose, lookup).Some?
    ensures RowOf(result, useImdb, renting, verbose, lookup).value
            == CellsFor(ShownColumns(verbose, useImdb, renting),
                        ValuesOf(result, ScoreOf(useImdb, result.imdbId, lookup).value))
    ensures |RowOf(result, useImdb, renting, verbose, lookup).value| == 3 + Count(verbose) + Count(useImdb) + Count(renting)
  {
    RowMatchesColumns(ValuesOf(result, ScoreOf(useImdb, result.imdbId, lookup).value), verbose, useImdb, renting);
    ShownColumnsSpec(verbose, useImdb, renting);
  }

  /** Every row has one cell per shown column. */
  lemma KeptRowsWidth(results: seq<SearchResult>, useImdb: bool, year: Option<int>, renting: bool,
                      verbose: bool, lookup: Lookup)
    requires KeptRows(results, useImdb, year, renting, verbose, lookup).Some?
    ensures forall row :: row in KeptRows(results, useImdb, year, renting, verbose, lookup).value ==>
              |row| == 3 + Count(verbose) + Count(useImdb) + Count(renting)
  {
    var rows := KeptRows(results, useImdb, year, renting, verbose, lookup).value;
    forall row | row in rows ensures |row| == 3 + Count(verbose) + Count(useImdb) + Count(renting) {
      SelectOrFailOrigin(results, KeepFilter(year), RowBuilder(useImdb, renting, verbose, lookup), row);
      var i :| 0 <= i < |results| && Keeps(results[i], year)
               && RowOf(results[i], useImdb, renting, verbose, lookup) == Some(row);
      RowShape(results[i], useImdb, renting, verbose, lookup);
    }
  }

  /** A query crashes exactly when some kept result's lookup or `['rating']`
      access raises; otherwise it prints "No results found" exactly when the
      search returned nothing or every result was filtered out, and else the
      table with the configured columns and full-width rows. */
  lemma OutputCases(results: seq<SearchResult>, useImdb: bool, year: Option<int>, renting: bool,
                    verbose: bool, lookup: Lookup)
    ensures var out := ExpectedOutput(results, useImdb, year, renting, verbose, lookup);
      var crashes := exists i :: 0 <= i < |results| && Keeps(results[i], year) && ScoreRaises(results[i], useImdb, lookup);
      && (out == Crashed <==> crashes)
      && (out == Message(NO_RESULTS) <==> !crashes && forall i :: 0 <= i < |results| ==> !Keeps(results[i], year))
      && (out.Rendered? ==>
            && out.columns == HeaderRow(verbose, useImdb, renting)
            && forall row :: row in out.rows ==> |row| == |out.columns|)
  {
    CrashIff(results, useImdb, year, renting, verbose, lookup);
    var rows := KeptRows(results, useImdb, year, renting, verbose, lookup);
    if rows.Some? {
      KeptRowsEmptyIff(results, useImdb, year, renting, verbose, lookup);
      KeptRowsWidth(results, useImdb, year, renting, verbose, lookup);
    }
    assert |HeaderRow(verbose, useImdb, renting)| == 3 + Count(verbose) + Count(useImdb) + Count(renting);
  }

  /** The options `main()` collects from the command line. */
  datatype Args = Args(
    query: Option<string>, imdb: bool, lang: string, country: string, limit: int,
    year: Option<int>, rent: bool, verbose: bool)

  /** What a query issued from `main()` prints: `do_query` gets the options as
      keyword arguments and reads the module-level VERBOSE, which main's
      assignment leaves alone. */
  function MainOutput(args: Args, results: seq<SearchResult>, lookup: Lookup): Output {
    ExpectedOutput(results, args.imdb, args.year, args.rent, VERBOSE, lookup)
  }

  /** Under `main()` the `--verbose` switch changes nothing: no ID column and
      no ID cell is ever shown. The first clause holds by the definition of
      `MainOutput`, which encodes the local binding by never reading
      `args.verbose`; the second is what that binding means for the table. */
  lemma MainHidesId(args: Args, results: seq<SearchResult>, lookup: Lookup)
    ensures MainOutput(args, results, lookup) == MainOutput(args.(verbose := !args.verbose), results, lookup)
    ensures var out := MainOutput(args, results, lookup);
      out.Rendered? ==>
        && "ID" !in out.columns
        && forall row :: row in out.rows ==> |row| == 3 + Count(args.imdb) + Count(args.rent)
  {
    var out := MainOutput(args, results, lookup);
    if out.Rendered? {
      var rows := KeptRows(results, args.imdb, args.year, args.rent, VERBOSE, lookup);
      assert rows.Some? && out.rows == rows.value;
      KeptRowsWidth(results, args.imdb, args.year, args.rent, VERBOSE, lookup);
      NoIdColumn(args.imdb, args.rent);
    }
  }

  /** With the verbose flag off no header is "ID". */
  lemma NoIdColumn(useImdb: bool, renting: bool)
    ensures "ID" !in HeaderRow(false, useImdb, renting)
  {
    HeaderRowMatchesColumns(false, useImdb, renting);
    ShownColumnsSpec(false, useImdb, renting);
    var cs := ShownColumns(false, useImdb, renting);
    forall i | 0 <= i < |cs| ensures Headers(cs)[i] != "ID" {
      assert cs[i] != IdColumn;
    }
  }
}
