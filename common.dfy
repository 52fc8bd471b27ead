/** The entities all three copies of the tool share: what the search service
    returns, what a rating lookup can come back with, what a query prints,
    and the table object rows are added to. */
module Common {
  import opened Text

  datatype Option<T> = None | Some(value: T)

  /** One monetization option of a title: its monetization type as the search
      service spells it ("FLATRATE", "RENT", "BUY", ...) and the package name. */
  datatype Offer = Offer(monetizationType: string, packageName: string)

  /** One title returned by the search service. */
  datatype SearchResult = SearchResult(
    title: string,
    entryId: string,
    releaseYear: Option<int>,
    imdbId: Option<string>,
    offers: seq<Offer>)

  /** What one rating lookup does: return a movie record (whose "rating" key
      holds the rating's text form, or is missing), return something falsy,
      or raise. */
  datatype LookupOutcome = Movie(rating: Option<string>) | NoMovie | Raises

  /** A rating lookup service, as a function of the key it is called with. */
  type Lookup = string -> LookupOutcome

  /** The value put in the score cell before `str` is applied. */
  datatype Score = NotAvailable | Rated(rating: string) | LookupError

  const NOT_AVAILABLE := "N/A"
  const LOOKUP_ERROR := "Error"
  const NO_RESULTS := "No results found"

  /** `str(score)`. */
  function ScoreText(s: Score): string {
    match s
    case NotAvailable => NOT_AVAILABLE
    case Rated(r) => r
    case LookupError => LOOKUP_ERROR
  }

  /** Python truthiness of an optional year: `None` and `0` are falsy. */
  predicate YearTruthy(y: Option<int>) {
    y.Some? && y.value != 0
  }

  /** Python truthiness of an optional identifier: `None` and `""` are falsy. */
  predicate IdTruthy(id: Option<string>) {
    id.Some? && id.value != ""
  }

  /** `str(result.release_year)`: a missing year prints as "None". */
  function YearText(y: Option<int>): string {
    match y
    case None => "None"
    case Some(n) => IntToString(n)
  }

  /** The printed year tells the years apart: "None" for a missing year and a
      decimal numeral that reads back as the year otherwise. */
  lemma YearTextSpec(y: Option<int>)
    ensures y.None? ==> YearText(y) == "None"
    ensures y.Some? ==> ParseInt(YearText(y)) == y.value
    ensures y.Some? ==> YearText(y) != "None"
  {
    if y.Some? {
      IntToStringRoundTrip(y.value);
      var s := YearText(y);
      if y.value < 0 {
        assert s[0] == '-';
      } else {
        assert '0' <= s[0] <= '9';
      }
    }
  }

  /** Two results print the same year text exactly when they carry the same year. */
  lemma YearTextInjective(a: Option<int>, b: Option<int>)
    ensures YearText(a) == YearText(b) <==> a == b
  {
    YearTextSpec(a);
    YearTextSpec(b);
  }

  /** Python's `range(start, stop)` with step 1, as far as `in` is concerned. */
  datatype IntRange = IntRange(start: int, stop: int) {
    predicate Contains(x: int) {
      start <= x < stop
    }
  }

  /** What one query leaves on the terminal: a message, a rendered table, or
      nothing because an exception escaped. */
  datatype Output =
    | Message(text: string)
    | Rendered(columns: seq<string>, rows: seq<seq<string>>)
    | Crashed

  /** A terminal table: its header cells and the rows added so far. Styles and
      layout belong to the renderer and are not kept. */
  class Table {
    var title: string
    var columns: seq<string>
    var rows: seq<seq<string>>

    constructor (title: string)
      ensures this.title == title && columns == [] && rows == []
    {
      this.title := title;
      columns := [];
      rows := [];
    }

    method AddColumn(header: string)
      modifies this
      ensures columns == old(columns) + [header]
      ensures rows == old(rows) && title == old(title)
    {
      columns := columns + [header];
    }

    method AddRow(cells: seq<string>)
      modifies this
      ensures rows == old(rows) + [cells]
      ensures columns == old(columns) && title == old(title)
    {
      rows := rows + [cells];
    }

    function RowCount(): nat
      reads this
    {
      |rows|
    }
  }
}
