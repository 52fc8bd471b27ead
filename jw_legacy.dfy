/** The root-level single-file tool, jw.py. Its `do_query` always shows five
    columns, always looks the rating up (USE_IMDB is fixed on), lists only the
    flatrate offers, unhighlighted, and has no year filter. It catches no
    exception: a missing IMDb id (slicing None), a lookup that raises, and a
    movie record without a "rating" key all end the query. */
module Legacy {
  import opened Text
  import opened Common
  import opened Services
  import opened Offers
  import opened Selection
  import Layout

  const USE_IMDB := true

  /** The five columns, always in this order. */
  const COLUMNS: seq<string> := ["Title", "ID", "released", "score", "offers"]

  /** The score of one result, or `None` when choosing it raises. */
  function ScoreOf(useImdb: bool, imdbId: Option<string>, lookup: Lookup): (r: Option<Score>)
    ensures r.None? <==> useImdb && (imdbId.None? || lookup(DropTwo(imdbId.value)) in {Raises, Movie(None)})
    ensures r == Some(NotAvailable) <==> !useImdb || (imdbId.Some? && lookup(DropTwo(imdbId.value)) == NoMovie)
    ensures r.Some? && r.value.Rated? ==>
              useImdb && imdbId.Some? && lookup(DropTwo(imdbId.value)) == Movie(Some(r.value.rating))
    ensures r != Some(LookupError)
  {
    if !useImdb then Some(NotAvailable)
    else if imdbId.None? then None
    else
      match lookup(DropTwo(imdbId.value))
      case Raises => None
      case NoMovie => Some(NotAvailable)
      case Movie(None) => None
      case Movie(Some(rating)) => Some(Rated(rating))
  }

  /** The offers cell: the flatrate package names joined with ", ". */
  function OffersCell(offers: seq<Offer>): string {
    Join(KindNames(offers, FLATRATE), SEPARATOR)
  }

  /** The row added for one result, or `None` when the query crashes on it. */
  function RowOf(result: SearchResult, lookup: Lookup): (r: Option<seq<string>>)
    ensures r.None? <==> ScoreOf(USE_IMDB, result.imdbId, lookup).None?
    ensures r.Some? ==> |r.value| == |COLUMNS|
  {
    match ScoreOf(USE_IMDB, result.imdbId, lookup)
    case None => None
    case Some(score) =>
      Some([result.title, result.entryId, YearText(result.releaseYear), ScoreText(score), OffersCell(result.offers)])
  }

  function KeepAll(): SearchResult -> bool {
    r => true
  }

  function RowBuilder(lookup: Lookup): SearchResult -> Option<seq<string>> {
    r => RowOf(r, lookup)
  }

  /** The rows for the results, one per result, or `None` once one crashes. */
  function Rows(results: seq<SearchResult>, lookup: Lookup): Option<seq<seq<string>>> {
    SelectOrFail(results, KeepAll(), RowBuilder(lookup))
  }

  /** What one query prints. The table is always printed once it is built. */
  function ExpectedOutput(results: seq<SearchResult>, lookup: Lookup): Output {
    if |results| == 0 then Message(NO_RESULTS)
    else match Rows(results, lookup)
      case None => Crashed
      case Some(rows) => Rendered(COLUMNS, rows)
  }

  /** The loop collecting the flatrate package names of one result. */
  method FlatrateNames(offers: seq<Offer>) returns (names: seq<string>)
    ensures names == KindNames(offers, FLATRATE)
  {
    names := [];
    var k := 0;
    while k < |offers|
      invariant 0 <= k <= |offers|
      invariant names == KindNames(offers[..k], FLATRATE)
    {
      assert offers[..k + 1][..k] == offers[..k];
      if Lower(offers[k].monetizationType) == FLATRATE {
        names := names + [offers[k].packageName];
      }
      k := k + 1;
    }
    assert offers[..k] == offers;
  }

  lemma RowsStep(results: seq<SearchResult>, k: nat, lookup: Lookup)
    requires k < |results|
    ensures Rows(results[..k + 1], lookup)
            == match Rows(results[..k], lookup)
               case None => None
               case Some(rows) =>
                 match RowOf(results[k], lookup)
                 case None => None
                 case Some(row) => Some(rows + [row])
  {
    SelectOrFailStep(results, k, KeepAll(), RowBuilder(lookup));
  }

  /** `do_query` on the results the search returned. */
  method DoQuery(results: seq<SearchResult>, lookup: Lookup) returns (out: Output)
    ensures out == ExpectedOutput(results, lookup)
  {
    if |results| == 0 {
      return Message(NO_RESULTS);
    }
    var table := new Table(Layout.TABLE_TITLE);
    table.AddColumn("Title");
    table.AddColumn("ID");
    table.AddColumn("released");
    table.AddColumn("score");
    table.AddColumn("offers");
    var c := 0;
    while c < |results|
      invariant 0 <= c <= |results|
      invariant table.columns == COLUMNS
      invariant Rows(results[..c], lookup) == Some(table.rows)
    {
      var result := results[c];
      RowsStep(results, c, lookup);
      var offers := FlatrateNames(result.offers);
      var score := NotAvailable;
      if USE_IMDB {
        if result.imdbId.None? {
          FailurePersists(results, c + 1, KeepAll(), RowBuilder(lookup));
          return Crashed;
        }
        var found := lookup(DropTwo(result.imdbId.value));
        if found == Raises || found == Movie(None) {
          FailurePersists(results, c + 1, KeepAll(), RowBuilder(lookup));
          return Crashed;
        }
        if found.Movie? {
          score := Rated(found.rating.value);
        }
      }
      table.AddRow([result.title, result.entryId, YearText(result.releaseYear), ScoreText(score), Join(offers, SEPARATOR)]);
      c := c + 1;
    }
    assert results[..c] == results;
    out := Rendered(table.columns, table.rows);
  }

  // ---------------------------------------------------------------------
  // Properties

  /** "No results found" exactly for an empty search; a crash exactly when some
      result has no IMDb id or its lookup raises or returns a record without a
      rating; otherwise the five columns and one row per result, in search order. */
  lemma OutputCases(results: seq<SearchResult>, lookup: Lookup)
    ensures var out := ExpectedOutput(results, lookup);
      && (out == Message(NO_RESULTS) <==> |results| == 0)
      && (out == Crashed <==> exists i :: 0 <= i < |results| && ScoreOf(USE_IMDB, results[i].imdbId, lookup).None?)
      && (out.Rendered? ==>
            && out.columns == COLUMNS
            && |out.rows| == |results|
            && forall i :: 0 <= i < |results| ==> RowOf(results[i], lookup) == Some(out.rows[i]))
  {
    SelectOrFailNoneIff(results, KeepAll(), RowBuilder(lookup));
    var rows := Rows(results, lookup);
    if rows.Some? {
      SelectOrFailAll(results, KeepAll(), RowBuilder(lookup));
    }
  }

  /** A result's row: its title, its id, its release year, the chosen score and
      the plain list of flatrate names. A falsy lookup leaves "N/A"; there is no
      error sentinel. */
  lemma RowCells(result: SearchResult, lookup: Lookup)
    requires RowOf(result, lookup).Some?
    ensures var row := RowOf(result, lookup).value;
      && row[0] == result.title && row[1] == result.entryId
      && row[2] == YearText(result.releaseYear)
      && (lookup(DropTwo(result.imdbId.value)) == NoMovie ==> row[3] == NOT_AVAILABLE)
      && (lookup(DropTwo(result.imdbId.value)).Movie? ==> row[3] == lookup(DropTwo(result.imdbId.value)).rating.value)
      && row[4] == Join(KindNames(result.offers, FLATRATE), SEPARATOR)
  {
  }

  /** A title with no flatrate offer gets an empty offers cell, not a "Not
      available" text. */
  lemma NoFlatrateEmptyCell(offers: seq<Offer>)
    requires forall i :: 0 <= i < |offers| ==> !OfKind(offers[i], FLATRATE)
    ensures OffersCell(offers) == ""
  {
    if KindNames(offers, FLATRATE) != [] {
      var name := KindNames(offers, FLATRATE)[0];
      KindNamesMember(offers, FLATRATE, name);
    }
  }

  /** A single flatrate offer on a subscribed service is listed by its bare
      name: this copy does not highlight. */
  lemma NetflixNotHighlighted()
    ensures OffersCell([Offer("FLATRATE", "Netflix")]) == "Netflix"
    ensures Cell("Netflix") != "Netflix"
  {
    var offers := [Offer("FLATRATE", "Netflix")];
    var kind := Lower("FLATRATE");
    assert kind[0] == 'f' && |kind| == 8;
    assert kind == FLATRATE;
    assert offers[..0] == [];
    NetflixExamples();
  }
}
