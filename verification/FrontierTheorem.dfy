/** The frontier of a partially ordered set of events covers it with unrelated elements. */
module FrontierTheorem {
  import opened PartialOrder
  import opened SortTheorem
  import opened Finite

  /** The positions strictly above `i`. */
  ghost function Above<T, D>(ev: seq<Event<T, D>>, hb: (T, T) -> bool, i: nat): set<nat>
    requires i < |ev|
  {
    set j: nat | j < |ev| && Prec(ev, hb, i, j)
  }

  /** Climbing from any event ends at a maximal one, because each step leaves strictly fewer events above. */
  lemma {:induction false} ClimbToFrontier<T, D>(ev: seq<Event<T, D>>, hb: (T, T) -> bool, i: nat) returns (m: nat)
    requires StrictlyOrdered(ev, hb) && i < |ev|
    ensures m < |ev| && IsMaximal(ev, hb, m) && (m == i || hb(ev[i].stamp, ev[m].stamp))
    decreases |Above(ev, hb, i)|
  {
    if IsMaximal(ev, hb, i) {
      m := i;
    } else {
      var j: nat :| j < |ev| && Prec(ev, hb, i, j);
      assert Above(ev, hb, j) <= Above(ev, hb, i) - {j};
      SubsetCardinality(Above(ev, hb, j), Above(ev, hb, i) - {j});
      m := ClimbToFrontier(ev, hb, j);
    }
  }

  /** Every event is on the frontier or before one that is; frontier events are unrelated and keep the input order. */
  lemma FrontierCovers<T, D>(ev: seq<Event<T, D>>, hb: (T, T) -> bool, i: nat)
    requires StrictlyOrdered(ev, hb) && i < |ev|
    ensures var F := Frontier(ev, hb, |ev|);
            && F != []
            && (exists m :: m in F && (m == i || hb(ev[i].stamp, ev[m].stamp)))
            && (forall a, b :: 0 <= a < b < |F| ==> F[a] < F[b] && !hb(ev[F[a]].stamp, ev[F[b]].stamp)
                                                      && !hb(ev[F[b]].stamp, ev[F[a]].stamp))
  {
    var F := Frontier(ev, hb, |ev|);
    var m := ClimbToFrontier(ev, hb, i);
    assert m in F;
    forall a, b | 0 <= a < b < |F|
      ensures !hb(ev[F[a]].stamp, ev[F[b]].stamp) && !hb(ev[F[b]].stamp, ev[F[a]].stamp)
    {
      assert F[a] in F && F[b] in F && F[a] != F[b];
      assert !Prec(ev, hb, F[a], F[b]) && !Prec(ev, hb, F[b], F[a]);
    }
  }

  /** The converse of a strict partial order is one too, so all of this holds of the minimal elements. */
  lemma ConverseIsOrdered<T, D>(ev: seq<Event<T, D>>, hb: (T, T) -> bool)
    ensures StrictlyOrdered(ev, Converse(hb)) <==> StrictlyOrdered(ev, hb)
  {
    if StrictlyOrdered(ev, Converse(hb)) {
      forall i: nat, j: nat, k: nat
        | i < |ev| && j < |ev| && k < |ev| && hb(ev[i].stamp, ev[j].stamp) && hb(ev[j].stamp, ev[k].stamp)
        ensures hb(ev[i].stamp, ev[k].stamp)
      {
        assert Converse(hb)(ev[k].stamp, ev[j].stamp) && Converse(hb)(ev[j].stamp, ev[i].stamp);
      }
      assert forall i: nat | i < |ev| :: !Converse(hb)(ev[i].stamp, ev[i].stamp);
    }
  }

  /** Every event is minimal or has a minimal one before it; minimal events are unrelated and keep the input order. */
  lemma MinimalCovers<T, D>(ev: seq<Event<T, D>>, hb: (T, T) -> bool, i: nat)
    requires StrictlyOrdered(ev, hb) && i < |ev|
    ensures var F := Frontier(ev, Converse(hb), |ev|);
            && (exists m: nat :: m in F && m < |ev| && (m == i || hb(ev[m].stamp, ev[i].stamp)))
            && (forall m: nat :: m in F <==>
                  m < |ev| && forall j: nat :: j < |ev| && j != m ==> !hb(ev[j].stamp, ev[m].stamp))
            && (forall a, b :: 0 <= a < b < |F| ==> F[a] < F[b])
  {
    ConverseIsOrdered(ev, hb);
    MinimalPositions(ev, hb, Frontier(ev, Converse(hb), |ev|));
    var m := ClimbToFrontier(ev, Converse(hb), i);
    assert m in Frontier(ev, Converse(hb), |ev|);
  }
}
