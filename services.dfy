/** Highlighting the streaming services the user subscribes to. */
module Services {
  import opened Text

  /** The user's subscribed services. */
  const AVAILABLE_SERVICES: seq<string> :=
    ["netflix", "max", "amazon prime video", "filmin", "movistar plus"]

  const OPEN_MARK := "[bright_green]"
  const CLOSE_MARK := "[/bright_green]"
  const SEPARATOR := ", "

  /** `any(name.lower() == i.lower() for i in services)`. */
  function MatchesAny(name: string, services: seq<string>): bool
    decreases |services|
  {
    |services| > 0 && (Lower(name) == Lower(services[0]) || MatchesAny(name, services[1..]))
  }

  /** The generator expression is a case-insensitive whole-name comparison
      against some entry. */
  lemma {:induction false} MatchesAnyIff(name: string, services: seq<string>)
    ensures MatchesAny(name, services) <==>
            exists j :: 0 <= j < |services| && Lower(name) == Lower(services[j])
    decreases |services|
  {
    if |services| > 0 {
      MatchesAnyIff(name, services[1..]);
      if MatchesAny(name, services[1..]) {
        var j :| 0 <= j < |services[1..]| && Lower(name) == Lower(services[1..][j]);
        assert Lower(name) == Lower(services[j + 1]);
      }
      if exists j :: 0 <= j < |services| && Lower(name) == Lower(services[j]) {
        var j :| 0 <= j < |services| && Lower(name) == Lower(services[j]);
        if j > 0 {
          assert services[1..][j - 1] == services[j];
        }
      }
    }
  }

  predicate IsAvailable(name: string) {
    MatchesAny(name, AVAILABLE_SERVICES)
  }

  /** The cell one package name becomes. */
  function Cell(name: string): string {
    if IsAvailable(name) then OPEN_MARK + name + CLOSE_MARK else name
  }

  /** A cell carries the highlight markup exactly when its name is a subscribed service. */
  lemma CellHighlightedIff(name: string)
    ensures Cell(name) == OPEN_MARK + name + CLOSE_MARK <==>
            exists j :: 0 <= j < |AVAILABLE_SERVICES| && Lower(name) == Lower(AVAILABLE_SERVICES[j])
  {
    MatchesAnyIff(name, AVAILABLE_SERVICES);
    if !IsAvailable(name) {
      assert |OPEN_MARK + name + CLOSE_MARK| > |name|;
    }
  }

  function Cells(names: seq<string>): seq<string> {
    seq(|names|, i requires 0 <= i < |names| => Cell(names[i]))
  }

  /** What `colorize_services` returns for a list of package names. */
  function Colorized(names: seq<string>): string {
    Join(Cells(names), SEPARATOR)
  }

  /** `colorize_services`: build one cell per name, then join them. */
  method ColorizeServices(offers: seq<string>) returns (s: string)
    ensures s == Colorized(offers)
  {
    var ret: seq<string> := [];
    var k := 0;
    while k < |offers|
      invariant 0 <= k <= |offers|
      invariant |ret| == k
      invariant forall i :: 0 <= i < k ==> ret[i] == Cell(offers[i])
    {
      var offer := offers[k];
      if MatchesAny(offer, AVAILABLE_SERVICES) {
        ret := ret + [OPEN_MARK + offer + CLOSE_MARK];
      } else {
        ret := ret + [offer];
      }
      k := k + 1;
    }
    assert ret == Cells(offers);
    s := Join(ret, SEPARATOR);
  }

  lemma ColorizedEmpty()
    ensures Colorized([]) == ""
  {
  }

  lemma ColorizedSingle(name: string)
    ensures Colorized([name]) == Cell(name)
  {
  }

  /** Colorizing a list is colorizing its two halves and joining them with ", ":
      one cell per name, in input order. */
  lemma ColorizedConcat(xs: seq<string>, ys: seq<string>)
    requires |xs| > 0 && |ys| > 0
    ensures Colorized(xs + ys) == Colorized(xs) + SEPARATOR + Colorized(ys)
  {
    assert Cells(xs + ys) == Cells(xs) + Cells(ys);
    JoinConcat(Cells(xs), Cells(ys), SEPARATOR);
  }

  /** "Netflix" is highlighted; "Netflix Extra" is not (no substring matching). */
  lemma NetflixExamples()
    ensures Cell("Netflix") == OPEN_MARK + "Netflix" + CLOSE_MARK
    ensures Cell("Netflix Extra") == "Netflix Extra"
  {
    assert Lower("Netflix") == Lower(AVAILABLE_SERVICES[0]);
    var extra := Lower("Netflix Extra");
    assert extra[0] == 'n' && extra[7] == ' ';
    MatchesAnyIff("Netflix Extra", AVAILABLE_SERVICES);
    forall j | 0 <= j < |AVAILABLE_SERVICES|
      ensures extra != Lower(AVAILABLE_SERVICES[j])
    {
      if j == 4 {
        assert Lower(AVAILABLE_SERVICES[4])[0] == 'm';
      }
    }
  }
}
