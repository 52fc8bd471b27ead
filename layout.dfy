/** Which columns the results table has and which cells each row gets.
    Columns are added conditionally in a fixed order; a row is written as a
    six-slot list where a hidden column's slot holds `None`, and the `None`s
    are dropped before the row is added. */
module Layout {
  import opened Common
  import opened Services

  datatype Column = TitleColumn | IdColumn | ReleasedColumn | ScoreColumn | StreamingColumn | RentingColumn

  const TABLE_TITLE := "Results"
  const STREAMING_NONE := "Not available for streaming"
  const RENT_NONE := "Not available for rent"

  function Header(c: Column): string {
    match c
    case TitleColumn => "Title"
    case IdColumn => "ID"
    case ReleasedColumn => "released"
    case ScoreColumn => "score"
    case StreamingColumn => "streaming"
    case RentingColumn => "renting"
  }

  function Position(c: Column): nat {
    match c
    case TitleColumn => 0
    case IdColumn => 1
    case ReleasedColumn => 2
    case ScoreColumn => 3
    case StreamingColumn => 4
    case RentingColumn => 5
  }

  /** Whether a column is shown, from the verbose, rating and renting switches. */
  predicate Shown(c: Column, verbose: bool, useImdb: bool, renting: bool) {
    match c
    case IdColumn => verbose
    case ScoreColumn => useImdb
    case RentingColumn => renting
    case _ => true
  }

  function Count(b: bool): nat {
    if b then 1 else 0
  }

  /** The columns in the order the table receives them. */
  function ShownColumns(verbose: bool, useImdb: bool, renting: bool): (cs: seq<Column>)
  {
    [TitleColumn]
    + ((if verbose then [IdColumn] else [])
    + ([ReleasedColumn]
    + ((if useImdb then [ScoreColumn] else [])
    + ([StreamingColumn]
    + (if renting then [RentingColumn] else [])))))
  }

  /** Exactly the shown columns appear, each once, in the fixed order; their
      number is three plus one per switch that is on. */
  lemma ShownColumnsSpec(verbose: bool, useImdb: bool, renting: bool)
    ensures var cs := ShownColumns(verbose, useImdb, renting);
      && |cs| == 3 + Count(verbose) + Count(useImdb) + Count(renting)
      && (forall c :: c in cs <==> Shown(c, verbose, useImdb, renting))
      && (forall i, j :: 0 <= i < j < |cs| ==> Position(cs[i]) < Position(cs[j]))
  {
    var cs := ShownColumns(verbose, useImdb, renting);
    forall c ensures c in cs <==> Shown(c, verbose, useImdb, renting) {
      match c
      case TitleColumn => assert cs[0] == c;
      case IdColumn =>
        if verbose { assert cs[1] == c; }
      case ReleasedColumn =>
        assert cs[1 + Count(verbose)] == c;
      case ScoreColumn =>
        if useImdb { assert cs[2 + Count(verbose)] == c; }
      case StreamingColumn =>
        assert cs[2 + Count(verbose) + Count(useImdb)] == c;
      case RentingColumn =>
        if renting { assert cs[3 + Count(verbose) + Count(useImdb)] == c; }
    }
  }

  function Headers(cs: seq<Column>): seq<string> {
    seq(|cs|, i requires 0 <= i < |cs| => Header(cs[i]))
  }

  /** The header row as the sequence of `add_column` calls produces it. */
  function HeaderRow(verbose: bool, useImdb: bool, renting: bool): seq<string> {
    ["Title"] + (if verbose then ["ID"] else []) + ["released"]
    + (if useImdb then ["score"] else []) + ["streaming"] + (if renting then ["renting"] else [])
  }

  /** The `add_column` calls produce the headers of exactly the shown columns,
      in order. */
  lemma HeaderRowMatchesColumns(verbose: bool, useImdb: bool, renting: bool)
    ensures HeaderRow(verbose, useImdb, renting) == Headers(ShownColumns(verbose, useImdb, renting))
  {
    var cs := ShownColumns(verbose, useImdb, renting);
    var hr := HeaderRow(verbose, useImdb, renting);
    var hs := Headers(cs);
    ShownColumnsSpec(verbose, useImdb, renting);
    assert |hr| == |cs| == |hs|;
    forall i | 0 <= i < |cs| ensures hr[i] == hs[i] {
      assert hs[i] == Header(cs[i]);
    }
  }

  /** `build_table`: a fresh table with the columns added conditionally, in
      the fixed order. The stand-alone script makes the same calls inline. */
  method BuildTable(verbose: bool, useImdb: bool, renting: bool) returns (table: Table)
    ensures fresh(table)
    ensures table.columns == HeaderRow(verbose, useImdb, renting)
    ensures table.rows == [] && table.title == TABLE_TITLE
  {
    table := new Table(TABLE_TITLE);
    table.AddColumn("Title");
    if verbose {
      table.AddColumn("ID");
    }
    assert table.columns == ["Title"] + (if verbose then ["ID"] else []);
    table.AddColumn("released");
    if useImdb {
      table.AddColumn("score");
    }
    assert table.columns == ["Title"] + (if verbose then ["ID"] else []) + ["released"]
                            + (if useImdb then ["score"] else []);
    table.AddColumn("streaming");
    if renting {
      table.AddColumn("renting");
    }
  }

  /** With every switch off the table has exactly Title, released and streaming. */
  lemma DefaultColumns()
    ensures Headers(ShownColumns(false, false, false)) == ["Title", "released", "streaming"]
  {
  }

  /** The text of each potential cell of one row, before hiding. */
  datatype RowValues = RowValues(
    title: string, entryId: string, released: string,
    score: string, streaming: string, renting: string)

  function CellOf(c: Column, v: RowValues): string {
    match c
    case TitleColumn => v.title
    case IdColumn => v.entryId
    case ReleasedColumn => v.released
    case ScoreColumn => v.score
    case StreamingColumn => v.streaming
    case RentingColumn => v.renting
  }

  /** The row's list as written, with `None` in the slot of a hidden column. */
  function Items(v: RowValues, verbose: bool, useImdb: bool, renting: bool): seq<Option<string>> {
    [ Some(v.title),
      if verbose then Some(v.entryId) else None,
      Some(v.released),
      if useImdb then Some(v.score) else None,
      Some(v.streaming),
      if renting then Some(v.renting) else None ]
  }

  function Slot(x: Option<string>): seq<string> {
    if x.Some? then [x.value] else []
  }

  /** `[i for i in items if i is not None]`. */
  function Present(items: seq<Option<string>>): seq<string>
    decreases |items|
  {
    if |items| == 0 then []
    else Slot(items[0]) + Present(items[1..])
  }

  lemma {:induction false} PresentOfSix(xs: seq<Option<string>>)
    requires |xs| == 6
    ensures Present(xs) == Slot(xs[0]) + (Slot(xs[1]) + (Slot(xs[2]) + (Slot(xs[3]) + (Slot(xs[4]) + Slot(xs[5])))))
  {
    var t1 := xs[1..];
    var t2 := t1[1..];
    var t3 := t2[1..];
    var t4 := t3[1..];
    var t5 := t4[1..];
    assert t5[1..] == [];
    assert Present(t5) == Slot(t5[0]) + Present(t5[1..]);
    assert Present(t4) == Slot(t4[0]) + Present(t5);
    assert Present(t3) == Slot(t3[0]) + Present(t4);
    assert Present(t2) == Slot(t2[0]) + Present(t3);
    assert Present(t1) == Slot(t1[0]) + Present(t2);
    assert Present(xs) == Slot(xs[0]) + Present(t1);
  }

  function CellsFor(cs: seq<Column>, v: RowValues): seq<string> {
    seq(|cs|, i requires 0 <= i < |cs| => CellOf(cs[i], v))
  }

  lemma CellsForConcat(a: seq<Column>, b: seq<Column>, v: RowValues)
    ensures CellsFor(a + b, v) == CellsFor(a, v) + CellsFor(b, v)
  {
  }

  /** The row left after dropping the `None`s has one cell per shown column,
      and its i-th cell is the value belonging to the i-th column. */
  lemma RowMatchesColumns(v: RowValues, verbose: bool, useImdb: bool, renting: bool)
    ensures Present(Items(v, verbose, useImdb, renting)) == CellsFor(ShownColumns(verbose, useImdb, renting), v)
  {
    var items := Items(v, verbose, useImdb, renting);
    PresentOfSix(items);
    var p0, p2, p4 := [TitleColumn], [ReleasedColumn], [StreamingColumn];
    var p1 := if verbose then [IdColumn] else [];
    var p3 := if useImdb then [ScoreColumn] else [];
    var p5 := if renting then [RentingColumn] else [];
    CellsForConcat(p4, p5, v);
    CellsForConcat(p3, p4 + p5, v);
    CellsForConcat(p2, p3 + (p4 + p5), v);
    CellsForConcat(p1, p2 + (p3 + (p4 + p5)), v);
    CellsForConcat(p0, p1 + (p2 + (p3 + (p4 + p5))), v);
    assert CellsFor(p0, v) == Slot(items[0]);
    assert CellsFor(p1, v) == Slot(items[1]);
    assert CellsFor(p2, v) == Slot(items[2]);
    assert CellsFor(p3, v) == Slot(items[3]);
    assert CellsFor(p4, v) == Slot(items[4]);
    assert CellsFor(p5, v) == Slot(items[5]);
  }

  /** The streaming cell: the colorized names, or a fixed text when there are none. */
  function StreamingCell(names: seq<string>): string {
    if names == [] then STREAMING_NONE else Colorized(names)
  }

  /** The renting cell: the colorized names, or a fixed text when there are none. */
  function RentCell(names: seq<string>): string {
    if names == [] then RENT_NONE else Colorized(names)
  }
}
