/**
 * The emotion catalog read from emotions.json and its flattening into three
 * global suggestion lists, one per polarity (app.py, flatten_global_emotions).
 */
module Emotions {
  import opened StringOrder

  /** aspect -> polarity -> suggested emotions, as decoded from the catalog file. */
  type Catalog = map<string, map<string, seq<string>>>

  const Positive: string := "positive"
  const Negative: string := "negative"
  const Neutral: string := "neutral"

  /** The three lists handed to the annotation page as `pos_list`, `neg_list` and `neu_list`. */
  datatype GlobalLists = GlobalLists(positive: seq<string>, negative: seq<string>, neutral: seq<string>)

  /** Each of the three lists is ascending without repetitions. */
  ghost predicate SortedLists(g: GlobalLists) {
    StrictlySorted(g.positive) && StrictlySorted(g.negative) && StrictlySorted(g.neutral)
  }

  /** Some aspect of `em` lists `e` under the polarity key `pol`. */
  ghost predicate FiledUnder(em: Catalog, pol: string, e: string) {
    exists asp :: asp in em && pol in em[asp] && e in em[asp][pol]
  }

  /** Every key `e` is filed under is a polarity key other than the three recognised ones. */
  ghost predicate OnlyUnderOtherKeys(em: Catalog, e: string) {
    forall asp, pol :: asp in em && pol in em[asp] && e in em[asp][pol] ==>
      pol != Positive && pol != Negative && pol != Neutral
  }

  /** The emotions that the aspects in `done` file under `pol`. */
  ghost function Gathered(em: Catalog, done: set<string>, pol: string): set<string> {
    set asp, e | asp in done && asp in em && pol in em[asp] && e in em[asp][pol] :: e
  }

  /** What visiting one more aspect adds to a polarity's set. */
  lemma GatheredStep(em: Catalog, done: set<string>, asp: string, pol: string)
    requires asp in em
    ensures Gathered(em, done + {asp}, pol)
         == Gathered(em, done, pol) + (if pol in em[asp] then Elems(em[asp][pol]) else {})
  {
    var extra := if pol in em[asp] then Elems(em[asp][pol]) else {};
    forall e | e in Gathered(em, done + {asp}, pol)
      ensures e in Gathered(em, done, pol) + extra
    {
      var a :| a in done + {asp} && a in em && pol in em[a] && e in em[a][pol];
      if a != asp {
        assert e in Gathered(em, done, pol);
      }
    }
  }

  /** Having visited every aspect, a polarity's set holds exactly the emotions filed under it. */
  lemma GatheredAll(em: Catalog, pol: string)
    ensures forall e :: e in Gathered(em, em.Keys, pol) <==> FiledUnder(em, pol, e)
  {
    forall e | FiledUnder(em, pol, e)
      ensures e in Gathered(em, em.Keys, pol)
    {
      var asp :| asp in em && pol in em[asp] && e in em[asp][pol];
      assert asp in em.Keys;
    }
  }

  /**
   * flatten_global_emotions: visits every aspect's polarity groups in an
   * arbitrary order, adds the emotions under "positive", "negative" and
   * "neutral" to three sets, ignores every other key, and returns each set sorted.
   */
  method FlattenGlobalEmotions(em: Catalog) returns (g: GlobalLists)
    ensures SortedLists(g)
    ensures forall e :: e in g.positive <==> FiledUnder(em, Positive, e)
    ensures forall e :: e in g.negative <==> FiledUnder(em, Negative, e)
    ensures forall e :: e in g.neutral <==> FiledUnder(em, Neutral, e)
    ensures forall e :: OnlyUnderOtherKeys(em, e) ==> e !in g.positive && e !in g.negative && e !in g.neutral
  {
    var pos: set<string>, neg: set<string>, neu: set<string> := {}, {}, {};
    var todo := em.Keys;
    while todo != {}
      invariant todo <= em.Keys
      invariant pos == Gathered(em, em.Keys - todo, Positive)
      invariant neg == Gathered(em, em.Keys - todo, Negative)
      invariant neu == Gathered(em, em.Keys - todo, Neutral)
      decreases todo
    {
      var asp :| asp in todo;
      ghost var done := em.Keys - todo;
      var groups := em[asp];
      var pols := groups.Keys;
      while pols != {}
        invariant pols <= groups.Keys
        invariant pos == Gathered(em, done, Positive)
          + (if Positive in groups && Positive !in pols then Elems(groups[Positive]) else {})
        invariant neg == Gathered(em, done, Negative)
          + (if Negative in groups && Negative !in pols then Elems(groups[Negative]) else {})
        invariant neu == Gathered(em, done, Neutral)
          + (if Neutral in groups && Neutral !in pols then Elems(groups[Neutral]) else {})
        decreases pols
      {
        var pol :| pol in pols;
        if pol == Positive {
          pos := pos + Elems(groups[pol]);
        } else if pol == Negative {
          neg := neg + Elems(groups[pol]);
        } else if pol == Neutral {
          neu := neu + Elems(groups[pol]);
        }
        pols := pols - {pol};
      }
      GatheredStep(em, done, asp, Positive);
      GatheredStep(em, done, asp, Negative);
      GatheredStep(em, done, asp, Neutral);
      assert em.Keys - (todo - {asp}) == done + {asp};
      todo := todo - {asp};
    }
    assert em.Keys - todo == em.Keys;
    GatheredAll(em, Positive);
    GatheredAll(em, Negative);
    GatheredAll(em, Neutral);
    var posList := SortSet(pos);
    var negList := SortSet(neg);
    var neuList := SortSet(neu);
    g := GlobalLists(posList, negList, neuList);
  }

  /**
   * The lists do not depend on the order the catalog is visited in: any two
   * sorted, repetition-free lists holding exactly the emotions filed under a
   * polarity are the same list.
   */
  lemma ListIsDeterminedByCatalog(em: Catalog, pol: string, xs: seq<string>, ys: seq<string>)
    requires StrictlySorted(xs) && StrictlySorted(ys)
    requires forall e :: e in xs <==> FiledUnder(em, pol, e)
    requires forall e :: e in ys <==> FiledUnder(em, pol, e)
    ensures xs == ys
  {
    assert Elems(xs) == Elems(ys);
    SortedIsUnique(xs, ys);
  }
}
