/** The shape every copy of the query loop has: walk the results in order,
    skip the ones a filter rejects, and append one row for each remaining one.
    `SelectOrFail` is the same walk when building a row can raise: the first
    failure ends the walk. */
module Selection {
  import opened Common

  /** `[f(x) for x in xs if keep(x)]`. */
  function Select<T, U>(xs: seq<T>, keep: T -> bool, f: T -> U): seq<U>
    decreases |xs|
  {
    if |xs| == 0 then []
    else Select(xs[..|xs| - 1], keep, f) + (if keep(xs[|xs| - 1]) then [f(xs[|xs| - 1])] else [])
  }

  lemma SelectStep<T, U>(xs: seq<T>, k: nat, keep: T -> bool, f: T -> U)
    requires k < |xs|
    ensures Select(xs[..k + 1], keep, f) == Select(xs[..k], keep, f) + (if keep(xs[k]) then [f(xs[k])] else [])
  {
    assert xs[..k + 1][..k] == xs[..k];
  }

  /** Selection keeps order: selecting from a concatenation selects from each part, in turn. */
  lemma {:induction false} SelectConcat<T, U>(xs: seq<T>, ys: seq<T>, keep: T -> bool, f: T -> U)
    ensures Select(xs + ys, keep, f) == Select(xs, keep, f) + Select(ys, keep, f)
    decreases |ys|
  {
    if |ys| == 0 {
      assert xs + ys == xs;
    } else {
      var n := |ys| - 1;
      assert (xs + ys)[..|xs + ys| - 1] == xs + ys[..n];
      SelectConcat(xs, ys[..n], keep, f);
    }
  }

  /** Nothing is selected exactly when the filter rejects every element. */
  lemma {:induction false} SelectEmptyIff<T, U>(xs: seq<T>, keep: T -> bool, f: T -> U)
    ensures Select(xs, keep, f) == [] <==> forall i :: 0 <= i < |xs| ==> !keep(xs[i])
    decreases |xs|
  {
    if |xs| > 0 {
      var n := |xs| - 1;
      SelectEmptyIff(xs[..n], keep, f);
      assert forall i :: 0 <= i < n ==> xs[..n][i] == xs[i];
    }
  }

  /** When the filter rejects nothing, there is one output per element, in order. */
  lemma {:induction false} SelectAll<T, U>(xs: seq<T>, keep: T -> bool, f: T -> U)
    requires forall i :: 0 <= i < |xs| ==> keep(xs[i])
    ensures |Select(xs, keep, f)| == |xs|
    ensures forall i :: 0 <= i < |xs| ==> Select(xs, keep, f)[i] == f(xs[i])
    decreases |xs|
  {
    if |xs| > 0 {
      var n := |xs| - 1;
      var init := xs[..n];
      assert forall i :: 0 <= i < n ==> init[i] == xs[i];
      SelectAll(init, keep, f);
    }
  }

  /** Every output comes from some kept element. */
  lemma {:induction false} SelectOrigin<T, U>(xs: seq<T>, keep: T -> bool, f: T -> U, u: U)
    requires u in Select(xs, keep, f)
    ensures exists i :: 0 <= i < |xs| && keep(xs[i]) && u == f(xs[i])
    decreases |xs|
  {
    var n := |xs| - 1;
    var init := xs[..n];
    if u in Select(init, keep, f) {
      SelectOrigin(init, keep, f, u);
      var i :| 0 <= i < |init| && keep(init[i]) && u == f(init[i]);
      assert xs[i] == init[i];
    } else {
      assert keep(xs[n]) && u == f(xs[n]);
    }
  }

  /** `Select` where building an output can fail; `None` once one kept element fails. */
  function SelectOrFail<T, U>(xs: seq<T>, keep: T -> bool, f: T -> Option<U>): Option<seq<U>>
    decreases |xs|
  {
    if |xs| == 0 then Some([])
    else
      match SelectOrFail(xs[..|xs| - 1], keep, f)
      case None => None
      case Some(us) =>
        if !keep(xs[|xs| - 1]) then Some(us)
        else match f(xs[|xs| - 1])
          case None => None
          case Some(u) => Some(us + [u])
  }

  lemma SelectOrFailStep<T, U>(xs: seq<T>, k: nat, keep: T -> bool, f: T -> Option<U>)
    requires k < |xs|
    ensures SelectOrFail(xs[..k + 1], keep, f)
            == match SelectOrFail(xs[..k], keep, f)
               case None => None
               case Some(us) =>
                 if !keep(xs[k]) then Some(us)
                 else match f(xs[k])
                   case None => None
                   case Some(u) => Some(us + [u])
  {
    assert xs[..k + 1][..k] == xs[..k];
  }

  /** A walk that fails on a prefix fails on the whole sequence. */
  lemma {:induction false} FailurePersists<T, U>(xs: seq<T>, k: nat, keep: T -> bool, f: T -> Option<U>)
    requires k <= |xs|
    requires SelectOrFail(xs[..k], keep, f).None?
    ensures SelectOrFail(xs, keep, f).None?
    decreases |xs| - k
  {
    if k < |xs| {
      SelectOrFailStep(xs, k, keep, f);
      FailurePersists(xs, k + 1, keep, f);
    } else {
      assert xs[..k] == xs;
    }
  }

  /** The walk fails exactly when some kept element fails. */
  lemma {:induction false} SelectOrFailNoneIff<T, U>(xs: seq<T>, keep: T -> bool, f: T -> Option<U>)
    ensures SelectOrFail(xs, keep, f).None? <==> exists i :: 0 <= i < |xs| && keep(xs[i]) && f(xs[i]).None?
    decreases |xs|
  {
    if |xs| > 0 {
      var n := |xs| - 1;
      var init := xs[..n];
      SelectOrFailNoneIff(init, keep, f);
      assert forall i :: 0 <= i < n ==> init[i] == xs[i];
    }
  }

  /** A walk that does not fail outputs nothing exactly when the filter rejects every element. */
  lemma {:induction false} SelectOrFailEmptyIff<T, U>(xs: seq<T>, keep: T -> bool, f: T -> Option<U>)
    requires SelectOrFail(xs, keep, f).Some?
    ensures SelectOrFail(xs, keep, f).value == [] <==> forall i :: 0 <= i < |xs| ==> !keep(xs[i])
    decreases |xs|
  {
    if |xs| > 0 {
      var n := |xs| - 1;
      var init := xs[..n];
      assert SelectOrFail(init, keep, f).Some?;
      SelectOrFailEmptyIff(init, keep, f);
      assert forall i :: 0 <= i < n ==> init[i] == xs[i];
    }
  }

  /** Every output of a walk that does not fail is the output of some kept element. */
  lemma {:induction false} SelectOrFailOrigin<T, U>(xs: seq<T>, keep: T -> bool, f: T -> Option<U>, u: U)
    requires SelectOrFail(xs, keep, f).Some? && u in SelectOrFail(xs, keep, f).value
    ensures exists i :: 0 <= i < |xs| && keep(xs[i]) && f(xs[i]) == Some(u)
    decreases |xs|
  {
    var n := |xs| - 1;
    var init := xs[..n];
    assert SelectOrFail(init, keep, f).Some?;
    if u in SelectOrFail(init, keep, f).value {
      SelectOrFailOrigin(init, keep, f, u);
      var i :| 0 <= i < |init| && keep(init[i]) && f(init[i]) == Some(u);
      assert xs[i] == init[i];
    } else {
      assert keep(xs[n]) && f(xs[n]) == Some(u);
    }
  }

  /** When the filter rejects nothing and nothing fails, there is one output per
      element, in order. */
  lemma {:induction false} SelectOrFailAll<T, U>(xs: seq<T>, keep: T -> bool, f: T -> Option<U>)
    requires forall i :: 0 <= i < |xs| ==> keep(xs[i])
    requires SelectOrFail(xs, keep, f).Some?
    ensures |SelectOrFail(xs, keep, f).value| == |xs|
    ensures forall i :: 0 <= i < |xs| ==> f(xs[i]) == Some(SelectOrFail(xs, keep, f).value[i])
    decreases |xs|
  {
    if |xs| > 0 {
      var n := |xs| - 1;
      var init := xs[..n];
      assert forall i :: 0 <= i < n ==> init[i] == xs[i];
      assert SelectOrFail(init, keep, f).Some?;
      SelectOrFailAll(init, keep, f);
    }
  }
}
