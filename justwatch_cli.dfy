/** The packaged tool, justwatch_cli/jw.py: one query becomes a table of the
    search results that pass the year filter, with the offers split into
    streaming and rental cells, subscribed services highlighted, and an
    optional rating column. The search results and the rating lookup are
    inputs; the module-level VERBOSE flag is the `verbose` parameter. */
module JustwatchCli {
  import opened Text
  import opened Common
  import opened Services
  import opened Offers
  import opened Layout
  import opened Selection

  const DEFAULT_LANG := "ES"
  const DEFAULT_COUNTRY := "es"
  const DEFAULT_LIMIT := 5
  /** The `--year` default, which switches the year filter off. */
  const DEFAULT_YEAR := 0

  datatype Config = Config(
    useImdb: bool, lang: string, country: string, limit: int, year: int, renting: bool)
  {
    /** `Config.year_range`: the five years before the target year, the
        target year itself, and the four years after it. */
    function YearRange(): (r: IntRange)
      ensures forall y :: r.Contains(y) <==> year - 5 <= y < year + 5
    {
      IntRange(year - 5, year + 5)
    }
  }

  /** The year filter of `do_query`: a result is skipped only when it has a
      truthy release year, the configured year is non-zero, and the release
      year is outside the year range. */
  predicate Keeps(result: SearchResult, config: Config) {
    !(YearTruthy(result.releaseYear) && config.year != 0
      && !config.YearRange().Contains(result.releaseYear.value))
  }

  /** The score chosen for one result. A lookup that raises, and a movie
      record without a "rating" key (whose subscript raises), are caught and
      give the error sentinel. */
  function ScoreOf(useImdb: bool, imdbId: Option<string>, lookup: Lookup): (s: Score)
    ensures s == NotAvailable <==>
            !useImdb || !IdTruthy(imdbId) || lookup(DropTwo(imdbId.value)) == NoMovie
    ensures s == LookupError <==>
            useImdb && IdTruthy(imdbId) && lookup(DropTwo(imdbId.value)) in {Raises, Movie(None)}
    ensures s.Rated? <==>
            useImdb && IdTruthy(imdbId) && lookup(DropTwo(imdbId.value)).Movie?
            && lookup(DropTwo(imdbId.value)).rating.Some?
    ensures s.Rated? ==> s.rating == lookup(DropTwo(imdbId.value)).rating.value
  {
    if useImdb && IdTruthy(imdbId) then
      match lookup(DropTwo(imdbId.value))
      case Raises => LookupError
      case NoMovie => NotAvailable
      case Movie(None) => LookupError
      case Movie(Some(r)) => Rated(r)
    else NotAvailable
  }

  /** Every potential cell of the row built for one result. */
  function ValuesOf(result: SearchResult, config: Config, lookup: Lookup): RowValues {
    RowValues(
      result.title,
      result.entryId,
      YearText(result.releaseYear),
      ScoreText(ScoreOf(config.useImdb, result.imdbId, lookup)),
      StreamingCell(KindNames(result.offers, FLATRATE)),
      RentCell(KindNames(result.offers, RENT)))
  }

  /** The row added for one kept result. */
  function RowOf(result: SearchResult, config: Config, verbose: bool, lookup: Lookup): seq<string> {
    Present(Items(ValuesOf(result, config, lookup), verbose, config.useImdb, config.renting))
  }

  /** The rows added for a list of results, in order, skipping filtered ones. */
  function KeptRows(results: seq<SearchResult>, config: Config, verbose: bool, lookup: Lookup): seq<seq<string>>
  {
    Select(results, KeepFilter(config), RowBuilder(config, verbose, lookup))
  }

  function KeepFilter(config: Config): SearchResult -> bool {
    r => Keeps(r, config)
  }

  function RowBuilder(config: Config, verbose: bool, lookup: Lookup): SearchResult -> seq<string> {
    r => RowOf(r, config, verbose, lookup)
  }

  function TableHeaders(config: Config, verbose: bool): seq<string> {
    HeaderRow(verbose, config.useImdb, config.renting)
  }

  /** What one query prints. */
  function ExpectedOutput(results: seq<SearchResult>, config: Config, verbose: bool, lookup: Lookup): Output {
    if |results| == 0 then Message(NO_RESULTS)
    else
      var rows := KeptRows(results, config, verbose, lookup);
      if |rows| > 0 then Rendered(TableHeaders(config, verbose), rows) else Message(NO_RESULTS)
  }

  /** The body of `do_query`'s loop for a result that passed the year filter:
      split the offers, choose the score, and assemble the row. */
  method BuildRow(result: SearchResult, config: Config, verbose: bool, lookup: Lookup)
    returns (row: seq<string>)
    ensures row == RowOf(result, config, verbose, lookup)
  {
    var offers, rent := PartitionOffers(result.offers);
    var score := ScoreOf(config.useImdb, result.imdbId, lookup);
    var streamingCell := STREAMING_NONE;
    if offers != [] {
      streamingCell := ColorizeServices(offers);
    }
    var rentCell := RENT_NONE;
    if rent != [] {
      rentCell := ColorizeServices(rent);
    }
    var values := RowValues(result.title, result.entryId, YearText(result.releaseYear),
                            ScoreText(score), streamingCell, rentCell);
    row := Present(Items(values, verbose, config.useImdb, config.renting));
  }

  /** One more result: the rows so far, then that result's row if it is kept. */
  lemma KeptRowsStep(results: seq<SearchResult>, k: nat, config: Config, verbose: bool, lookup: Lookup)
    requires k < |results|
    ensures KeptRows(results[..k + 1], config, verbose, lookup)
            == KeptRows(results[..k], config, verbose, lookup)
               + (if Keeps(results[k], config) then [RowOf(results[k], config, verbose, lookup)] else [])
  {
    SelectStep(results, k, KeepFilter(config), RowBuilder(config, verbose, lookup));
  }

  /** `do_query` on the results the search returned. */
  method DoQuery(results: seq<SearchResult>, config: Config, verbose: bool, lookup: Lookup)
    returns (out: Output)
    ensures out == ExpectedOutput(results, config, verbose, lookup)
  {
    if |results| == 0 {
      return Message(NO_RESULTS);
    }
    var table := BuildTable(verbose, config.useImdb, config.renting);
    var cnt := 0;
    while cnt < |results|
      invariant 0 <= cnt <= |results|
      invariant table.columns == TableHeaders(config, verbose)
      invariant table.rows == KeptRows(results[..cnt], config, verbose, lookup)
    {
      var result := results[cnt];
      KeptRowsStep(results, cnt, config, verbose, lookup);
      if !Keeps(result, config) {
        cnt := cnt + 1;
        continue;
      }
      var row := BuildRow(result, config, verbose, lookup);
      table.AddRow(row);
      cnt := cnt + 1;
    }
    assert results[..cnt] == results;
    if table.RowCount() > 0 {
      out := Rendered(table.columns, table.rows);
    } else {
      out := Message(NO_RESULTS);
    }
  }

  // ---------------------------------------------------------------------
  // Properties of the year filter

  /** With a target year and a known release year, a result is kept exactly
      inside the half-open window; the window's upper end is excluded. */
  lemma YearFilterWindow(result: SearchResult, config: Config)
    requires config.year != 0 && YearTruthy(result.releaseYear)
    ensures Keeps(result, config) <==>
            config.year - 5 <= result.releaseYear.value < config.year + 5
    ensures result.releaseYear.value == config.year + 5 ==> !Keeps(result, config)
    ensures result.releaseYear.value == config.year - 5 ==> Keeps(result, config)
  {
  }

  /** A zero target year, or a missing or zero release year, never skips a result. */
  lemma YearFilterOff(result: SearchResult, config: Config)
    requires config.year == 0 || !YearTruthy(result.releaseYear)
    ensures Keeps(result, config)
  {
  }

  // ---------------------------------------------------------------------
  // Properties of the rows

  /** Rows come out in search order: the rows of a concatenation are the rows
      of each part, in turn. */
  lemma KeptRowsConcat(xs: seq<SearchResult>, ys: seq<SearchResult>,
                       config: Config, verbose: bool, lookup: Lookup)
    ensures KeptRows(xs + ys, config, verbose, lookup)
            == KeptRows(xs, config, verbose, lookup) + KeptRows(ys, config, verbose, lookup)
  {
    SelectConcat(xs, ys, KeepFilter(config), RowBuilder(config, verbose, lookup));
  }

  /** No row is produced exactly when every result is filtered out. */
  lemma KeptRowsEmptyIff(results: seq<SearchResult>, config: Config, verbose: bool, lookup: Lookup)
    ensures KeptRows(results, config, verbose, lookup) == [] <==>
            forall i :: 0 <= i < |results| ==> !Keeps(results[i], config)
  {
    SelectEmptyIff(results, KeepFilter(config), RowBuilder(config, verbose, lookup));
  }

  /** When nothing is filtered out there is one row per result, in search order. */
  lemma KeptRowsAllKept(results: seq<SearchResult>, config: Config, verbose: bool, lookup: Lookup)
    requires forall i :: 0 <= i < |results| ==> Keeps(results[i], config)
    ensures |KeptRows(results, config, verbose, lookup)| == |results|
    ensures forall i :: 0 <= i < |results| ==>
              KeptRows(results, config, verbose, lookup)[i] == RowOf(results[i], config, verbose, lookup)
  {
    SelectAll(results, KeepFilter(config), RowBuilder(config, verbose, lookup));
  }

  /** Every row has one cell per column, shown columns only, in column order. */
  lemma RowShape(result: SearchResult, config: Config, verbose: bool, lookup: Lookup)
    ensures RowOf(result, config, verbose, lookup)
            == CellsFor(ShownColumns(verbose, config.useImdb, config.renting), ValuesOf(result, config, lookup))
    ensures |RowOf(result, config, verbose, lookup)| == |TableHeaders(config, verbose)|
            == 3 + Count(verbose) + Count(config.useImdb) + Count(config.renting)
  {
    RowMatchesColumns(ValuesOf(result, config, lookup), verbose, config.useImdb, config.renting);
    ShownColumnsSpec(verbose, config.useImdb, config.renting);
  }

  lemma KeptRowsWidth(results: seq<SearchResult>, config: Config, verbose: bool, lookup: Lookup)
    ensures forall row :: row in KeptRows(results, config, verbose, lookup) ==>
              |row| == |TableHeaders(config, verbose)|
  {
    var rows := KeptRows(results, config, verbose, lookup);
    forall row | row in rows ensures |row| == |TableHeaders(config, verbose)| {
      SelectOrigin(results, KeepFilter(config), RowBuilder(config, verbose, lookup), row);
      var i :| 0 <= i < |results| && Keeps(results[i], config) && row == RowOf(results[i], config, verbose, lookup);
      RowShape(results[i], config, verbose, lookup);
    }
  }

  /** The score cell of a row (present only with ratings on) holds the chosen
      score: "N/A" without a truthy id or for a falsy lookup, the rating text
      for a movie with a rating, and "Error" when the lookup or the rating
      subscript raises. The lookup key is the id without its first two characters. */
  lemma ScoreCell(result: SearchResult, config: Config, verbose: bool, lookup: Lookup)
    requires config.useImdb
    ensures var row := RowOf(result, config, verbose, lookup);
      && |row| == 4 + Count(verbose) + Count(config.renting)
      && var scoreCell := row[2 + Count(verbose)];
      && (!IdTruthy(result.imdbId) ==> scoreCell == NOT_AVAILABLE)
      && (IdTruthy(result.imdbId) ==>
            var outcome := lookup(DropTwo(result.imdbId.value));
            && (outcome == NoMovie ==> scoreCell == NOT_AVAILABLE)
            && (outcome == Raises ==> scoreCell == LOOKUP_ERROR)
            && (outcome == Movie(None) ==> scoreCell == LOOKUP_ERROR)
            && (outcome.Movie? && outcome.rating.Some? ==> scoreCell == outcome.rating.value))
  {
    RowShape(result, config, verbose, lookup);
    var cs := ShownColumns(verbose, config.useImdb, config.renting);
    assert cs[2 + Count(verbose)] == ScoreColumn;
  }

  /** The streaming cell always exists; it lists the flatrate package names,
      or says that there are none. */
  lemma StreamingCellOf(result: SearchResult, config: Config, verbose: bool, lookup: Lookup)
    ensures var row := RowOf(result, config, verbose, lookup);
      var names := KindNames(result.offers, FLATRATE);
      && |row| == 3 + Count(verbose) + Count(config.useImdb) + Count(config.renting)
      && row[2 + Count(verbose) + Count(config.useImdb)]
      == if names == [] then STREAMING_NONE else Colorized(names)
  {
    RowShape(result, config, verbose, lookup);
    var cs := ShownColumns(verbose, config.useImdb, config.renting);
    assert cs[2 + Count(verbose) + Count(config.useImdb)] == StreamingColumn;
  }

  /** The renting cell exists only with renting on, as the last cell; it lists
      the rent package names, or says that there are none. */
  lemma RentCellOf(result: SearchResult, config: Config, verbose: bool, lookup: Lookup)
    ensures var row := RowOf(result, config, verbose, lookup);
      var names := KindNames(result.offers, RENT);
      config.renting ==> |row| > 0 && row[|row| - 1] == if names == [] then RENT_NONE else Colorized(names)
    ensures !config.renting ==> RentingColumn !in ShownColumns(verbose, config.useImdb, config.renting)
  {
    RowShape(result, config, verbose, lookup);
    ShownColumnsSpec(verbose, config.useImdb, config.renting);
    var cs := ShownColumns(verbose, config.useImdb, config.renting);
    if config.renting {
      assert cs[|cs| - 1] == RentingColumn;
    }
  }

  // ---------------------------------------------------------------------
  // Properties of the output

  /** "No results found" is printed exactly when the search returned nothing or
      every result was filtered out; otherwise the table is printed with the
      configured columns and one full-width row per kept result. The query
      never fails as a whole. */
  lemma OutputCases(results: seq<SearchResult>, config: Config, verbose: bool, lookup: Lookup)
    ensures var out := ExpectedOutput(results, config, verbose, lookup);
      && !out.Crashed?
      && (out == Message(NO_RESULTS) <==> forall i :: 0 <= i < |results| ==> !Keeps(results[i], config))
      && (out.Rendered? ==>
            && out.columns == TableHeaders(config, verbose)
            && out.rows == KeptRows(results, config, verbose, lookup)
            && forall row :: row in out.rows ==> |row| == |out.columns|)
  {
    var rows := KeptRows(results, config, verbose, lookup);
    KeptRowsEmptyIff(results, config, verbose, lookup);
    KeptRowsWidth(results, config, verbose, lookup);
    if |results| == 0 {
      assert ExpectedOutput(results, config, verbose, lookup) == Message(NO_RESULTS);
    } else if rows == [] {
      assert ExpectedOutput(results, config, verbose, lookup) == Message(NO_RESULTS);
    } else {
      assert ExpectedOutput(results, config, verbose, lookup) == Rendered(TableHeaders(config, verbose), rows);
    }
  }

  /** With the default year nothing is filtered: one row per search result, in order. */
  lemma DefaultYearKeepsAll(results: seq<SearchResult>, config: Config, verbose: bool, lookup: Lookup)
    requires config.year == DEFAULT_YEAR && |results| > 0
    ensures ExpectedOutput(results, config, verbose, lookup)
            == Rendered(TableHeaders(config, verbose),
                        seq(|results|, i requires 0 <= i < |results| => RowOf(results[i], config, verbose, lookup)))
  {
    KeptRowsAllKept(results, config, verbose, lookup);
  }

  const MATRIX := SearchResult("The Matrix", "tm10", Some(1999), Some("tt0133093"),
                                [Offer("FLATRATE", "Netflix")])
  const MATRIX_CONFIG := Config(false, DEFAULT_LANG, DEFAULT_COUNTRY, DEFAULT_LIMIT, 1999, false)

  lemma MatrixOffers()
    ensures KindNames(MATRIX.offers, FLATRATE) == ["Netflix"]
    ensures KindNames(MATRIX.offers, RENT) == []
  {
    var offers := MATRIX.offers;
    var kind := Lower("FLATRATE");
    assert kind[0] == 'f' && |kind| == 8;
    assert kind == FLATRATE;
    assert offers[..0] == [];
  }

  lemma MatrixValues(lookup: Lookup)
    ensures ValuesOf(MATRIX, MATRIX_CONFIG, lookup)
            == RowValues("The Matrix", "tm10", "1999", NOT_AVAILABLE,
                         OPEN_MARK + "Netflix" + CLOSE_MARK, RENT_NONE)
  {
    MatrixOffers();
    NetflixExamples();
    ColorizedSingle("Netflix");
    MatrixYearText();
    var v := ValuesOf(MATRIX, MATRIX_CONFIG, lookup);
    assert v.released == "1999";
    assert v.score == NOT_AVAILABLE;
    assert v.streaming == OPEN_MARK + "Netflix" + CLOSE_MARK;
    assert v.renting == RENT_NONE;
  }

  lemma MatrixYearText()
    ensures YearText(MATRIX.releaseYear) == "1999"
  {
  }

  lemma MatrixRow(lookup: Lookup)
    ensures RowOf(MATRIX, MATRIX_CONFIG, false, lookup) == ["The Matrix", "1999", OPEN_MARK + "Netflix" + CLOSE_MARK]
  {
    MatrixValues(lookup);
    RowShape(MATRIX, MATRIX_CONFIG, false, lookup);
    assert ShownColumns(false, false, false) == [TitleColumn, ReleasedColumn, StreamingColumn];
  }

  /** Searching "Matrix" with target year 1999 and defaults otherwise, when
      the search returns The Matrix (1999) streaming on Netflix: one row with
      the title, the year and the highlighted service, and no score column. */
  lemma MatrixScenario(lookup: Lookup)
    ensures ExpectedOutput([MATRIX], MATRIX_CONFIG, false, lookup)
            == Rendered(["Title", "released", "streaming"],
                        [["The Matrix", "1999", OPEN_MARK + "Netflix" + CLOSE_MARK]])
  {
    MatrixRow(lookup);
    assert Keeps(MATRIX, MATRIX_CONFIG);
    var rows := KeptRows([MATRIX], MATRIX_CONFIG, false, lookup);
    KeptRowsAllKept([MATRIX], MATRIX_CONFIG, false, lookup);
    assert rows == [RowOf(MATRIX, MATRIX_CONFIG, false, lookup)];
    assert TableHeaders(MATRIX_CONFIG, false) == ["Title", "released", "streaming"];
  }
}
