/**
 * `get_pathway_interactions` (lines 205-216): classifies the admitted interactions by whether
 * both endpoints lie in some pathway, and whether both lie in one same pathway.
 */
module PathwayInteractions {
  import opened Common

  /** Some pathway of `pn` contains both `a` and `b`. */
  ghost predicate SharePathway(pn: map<Id, set<Id>>, a: Id, b: Id)
  {
    exists p :: p in pn && a in pn[p] && b in pn[p]
  }

  /** The pair is the endpoint pair of one of the interactions. */
  ghost predicate PairListed(ts: seq<Interaction>, pair: Pair)
  {
    exists k :: 0 <= k < |ts| && PairOf(ts[k]) == pair
  }

  /** The search of lines 211-215: scans the pathways until one contains both endpoints. */
  method InSamePathway(pn: map<Id, set<Id>>, n1: Id, n2: Id) returns (found: bool)
    ensures found <==> SharePathway(pn, n1, n2)
  {
    found := false;
    var rest := pn.Keys;
    while rest != {} && !found
      invariant rest <= pn.Keys
      invariant found ==> SharePathway(pn, n1, n2)
      invariant !found ==> forall p :: p in pn && p !in rest ==> !(n1 in pn[p] && n2 in pn[p])
      decreases |rest|
    {
      var p :| p in rest;
      if n1 in pn[p] && n2 in pn[p] {
        found := true;
      }
      rest := rest - {p};
    }
  }

  /**
   * Lines 205-216: `inPathways` holds the endpoint pairs of the interactions whose endpoints
   * are both pathway nodes, and `inSamePathway` those of them that one pathway contains whole.
   */
  method GetPathwayInteractions(kept: seq<Interaction>, pn: map<Id, set<Id>>, all: set<Id>)
    returns (inPathways: set<Pair>, inSamePathway: set<Pair>)
    ensures forall p :: p in inPathways <==> PairListed(kept, p) && p.0 in all && p.1 in all
    ensures forall p :: p in inSamePathway <==> p in inPathways && SharePathway(pn, p.0, p.1)
  {
    inPathways := {};
    inSamePathway := {};
    for i := 0 to |kept|
      invariant forall p :: p in inPathways <==>
                  (exists k :: 0 <= k < i && PairOf(kept[k]) == p) && p.0 in all && p.1 in all
      invariant forall p :: p in inSamePathway <==> p in inPathways && SharePathway(pn, p.0, p.1)
    {
      var t := kept[i];
      assert PairOf(t) == (t.n1, t.n2);
      if t.n1 in all && t.n2 in all {
        inPathways := inPathways + {(t.n1, t.n2)};
        var found := InSamePathway(pn, t.n1, t.n2);
        if found {
          inSamePathway := inSamePathway + {(t.n1, t.n2)};
        }
      }
    }
  }

  /**
   * When `all` is the union of the pathway sets, as `get_pathways` returns it, a pair one
   * pathway contains has both endpoints in `all`: the same-pathway test alone decides
   * membership in `inSamePathway`.
   */
  lemma SharedIsInUnion(pn: map<Id, set<Id>>, all: set<Id>, a: Id, b: Id)
    requires forall x :: x in all <==> exists p :: p in pn && x in pn[p]
    requires SharePathway(pn, a, b)
    ensures a in all && b in all
  {
    var p :| p in pn && a in pn[p] && b in pn[p];
    assert exists q :: q in pn && a in pn[q];
    assert exists q :: q in pn && b in pn[q];
  }

  /** With `all` the union, a listed pair is in the same-pathway class exactly when one pathway holds both ends. */
  lemma SameClassIff(kept: seq<Interaction>, pn: map<Id, set<Id>>, all: set<Id>,
                     inPathways: set<Pair>, inSamePathway: set<Pair>, p: Pair)
    requires forall x :: x in all <==> exists q :: q in pn && x in pn[q]
    requires forall p :: p in inPathways <==> PairListed(kept, p) && p.0 in all && p.1 in all
    requires forall p :: p in inSamePathway <==> p in inPathways && SharePathway(pn, p.0, p.1)
    ensures p in inSamePathway <==> PairListed(kept, p) && SharePathway(pn, p.0, p.1)
  {
    if SharePathway(pn, p.0, p.1) {
      SharedIsInUnion(pn, all, p.0, p.1);
    }
  }
}
