/** Splitting a title's offers into the streaming and the rental list. */
module Offers {
  import opened Text
  import opened Common

  const FLATRATE := "flatrate"
  const RENT := "rent"

  predicate OfKind(o: Offer, kind: string) {
    Lower(o.monetizationType) == kind
  }

  /** The package names of the offers whose monetization type lowercases to
      `kind`, in offer order. */
  function KindNames(offers: seq<Offer>, kind: string): seq<string>
    decreases |offers|
  {
    if |offers| == 0 then []
    else
      var last := offers[|offers| - 1];
      KindNames(offers[..|offers| - 1], kind) + (if OfKind(last, kind) then [last.packageName] else [])
  }

  /** The loop over `result.offers`: a flatrate offer goes to the streaming list,
      a rent offer to the rental list, any other kind to neither. */
  method PartitionOffers(offers: seq<Offer>) returns (streaming: seq<string>, rent: seq<string>)
    ensures streaming == KindNames(offers, FLATRATE)
    ensures rent == KindNames(offers, RENT)
  {
    streaming, rent := [], [];
    var k := 0;
    while k < |offers|
      invariant 0 <= k <= |offers|
      invariant streaming == KindNames(offers[..k], FLATRATE)
      invariant rent == KindNames(offers[..k], RENT)
    {
      var offer := offers[k];
      assert offers[..k + 1][..k] == offers[..k];
      if Lower(offer.monetizationType) == FLATRATE {
        streaming := streaming + [offer.packageName];
      }
      if Lower(offer.monetizationType) == RENT {
        rent := rent + [offer.packageName];
      }
      k := k + 1;
    }
    assert offers[..k] == offers;
  }

  /** Order is kept: the names of a concatenation are the names of each part, in turn. */
  lemma {:induction false} KindNamesConcat(xs: seq<Offer>, ys: seq<Offer>, kind: string)
    ensures KindNames(xs + ys, kind) == KindNames(xs, kind) + KindNames(ys, kind)
    decreases |ys|
  {
    if |ys| == 0 {
      assert xs + ys == xs;
    } else {
      var n := |ys| - 1;
      assert (xs + ys)[..|xs + ys| - 1] == xs + ys[..n];
      KindNamesConcat(xs, ys[..n], kind);
    }
  }

  /** A name is in the list exactly when some offer of that kind carries it. */
  lemma {:induction false} KindNamesMember(offers: seq<Offer>, kind: string, name: string)
    ensures name in KindNames(offers, kind) <==>
            exists i :: 0 <= i < |offers| && OfKind(offers[i], kind) && offers[i].packageName == name
    decreases |offers|
  {
    if |offers| > 0 {
      var n := |offers| - 1;
      var init := offers[..n];
      KindNamesMember(init, kind, name);
      if exists i :: 0 <= i < |init| && OfKind(init[i], kind) && init[i].packageName == name {
        var i :| 0 <= i < |init| && OfKind(init[i], kind) && init[i].packageName == name;
        assert offers[i] == init[i];
      }
      if exists i :: 0 <= i < |offers| && OfKind(offers[i], kind) && offers[i].packageName == name {
        var i :| 0 <= i < |offers| && OfKind(offers[i], kind) && offers[i].packageName == name;
        if i < n {
          assert init[i] == offers[i];
        }
      }
    }
  }

  /** An offer that is neither flatrate nor rent shows up in neither list:
      the two lists together are never longer than the offers, and they hold
      every offer exactly when all offers are of one of the two kinds. */
  lemma {:induction false} PartitionCovers(offers: seq<Offer>)
    ensures |KindNames(offers, FLATRATE)| + |KindNames(offers, RENT)| <= |offers|
    ensures |KindNames(offers, FLATRATE)| + |KindNames(offers, RENT)| == |offers| <==>
            forall i :: 0 <= i < |offers| ==> OfKind(offers[i], FLATRATE) || OfKind(offers[i], RENT)
    decreases |offers|
  {
    if |offers| > 0 {
      var n := |offers| - 1;
      var init := offers[..n];
      PartitionCovers(init);
      assert forall i :: 0 <= i < n ==> init[i] == offers[i];
    }
  }
}
