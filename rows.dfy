/**
 * The output rows of the per-file loop (lines 134-150): one row per admitted interaction, in
 * order, holding its endpoints and score, a 0/1 flag for each of the two pathway classes, a
 * 0/1 flag for a B-relaxation distance and that distance, or -1 when there is none.
 */
module Rows {
  import opened Common

  /** One output row: the columns Node1, Node2, Score, AnyPathway, SamePathway, Bipartite, BRelaxDist. */
  datatype Row = Row(n1: Id, n2: Id, score: int, anyPathway: int, samePathway: int, bipartite: int, brelaxDist: int)

  /** The row's flags are 0 or 1, each set exactly when the pair is in its class, and the distance is -1 exactly when the pair has none. */
  predicate Encodes(row: Row, t: Interaction, inPathways: set<Pair>, inSamePathway: set<Pair>, brelax: map<Pair, nat>)
  {
    row.n1 == t.n1 && row.n2 == t.n2 && row.score == t.score &&
    (row.anyPathway == 0 || row.anyPathway == 1) &&
    (row.anyPathway == 1 <==> PairOf(t) in inPathways) &&
    (row.samePathway == 0 || row.samePathway == 1) &&
    (row.samePathway == 1 <==> PairOf(t) in inSamePathway) &&
    (row.bipartite == 0 || row.bipartite == 1) &&
    (row.bipartite == 1 <==> PairOf(t) in brelax) &&
    (PairOf(t) in brelax ==> row.brelaxDist == brelax[PairOf(t)]) &&
    (PairOf(t) !in brelax ==> row.brelaxDist == -1)
  }

  /** Lines 134-150: the row of every admitted interaction, in input order. */
  method EncodeRows(kept: seq<Interaction>, inPathways: set<Pair>, inSamePathway: set<Pair>, brelax: map<Pair, nat>)
    returns (rows: seq<Row>)
    ensures |rows| == |kept|
    ensures forall i :: 0 <= i < |kept| ==> Encodes(rows[i], kept[i], inPathways, inSamePathway, brelax)
  {
    rows := [];
    for i := 0 to |kept|
      invariant |rows| == i
      invariant forall k :: 0 <= k < i ==> Encodes(rows[k], kept[k], inPathways, inSamePathway, brelax)
    {
      var t := kept[i];
      var pair := (t.n1, t.n2);
      var anyPathway := if pair in inPathways then 1 else 0;
      var samePathway := if pair in inSamePathway then 1 else 0;
      var bipartite: int, dist: int;
      if pair in brelax {
        bipartite := 1;
        dist := brelax[pair];
      } else {
        bipartite := 0;
        dist := -1;
      }
      rows := rows + [Row(t.n1, t.n2, t.score, anyPathway, samePathway, bipartite, dist)];
    }
  }

  /** A row's flags are ordered as the classes are nested: SamePathway = 1 implies AnyPathway = 1. */
  lemma SameImpliesAny(row: Row, t: Interaction, inPathways: set<Pair>, inSamePathway: set<Pair>, brelax: map<Pair, nat>)
    requires Encodes(row, t, inPathways, inSamePathway, brelax)
    requires inSamePathway <= inPathways
    ensures row.samePathway == 1 ==> row.anyPathway == 1
    ensures row.anyPathway == 0 ==> row.samePathway == 0
  {
  }

  /** A distance is reported exactly when the Bipartite flag is set, and it is never negative then. */
  lemma BipartiteIffDistance(row: Row, t: Interaction, inPathways: set<Pair>, inSamePathway: set<Pair>, brelax: map<Pair, nat>)
    requires Encodes(row, t, inPathways, inSamePathway, brelax)
    ensures row.bipartite == 1 <==> row.brelaxDist != -1
    ensures row.bipartite == 1 <==> row.brelaxDist >= 0
  {
  }

  /** Distances are computed only for pairs in some pathway, so Bipartite = 1 implies AnyPathway = 1. */
  lemma BipartiteImpliesAny(row: Row, t: Interaction, inPathways: set<Pair>, inSamePathway: set<Pair>, brelax: map<Pair, nat>)
    requires Encodes(row, t, inPathways, inSamePathway, brelax)
    requires brelax.Keys <= inPathways
    ensures row.bipartite == 1 ==> row.anyPathway == 1
  {
  }

  /** The encoding leaves no choice: an interaction and the three classifications determine its row. */
  lemma EncodingUnique(r1: Row, r2: Row, t: Interaction, inPathways: set<Pair>, inSamePathway: set<Pair>, brelax: map<Pair, nat>)
    requires Encodes(r1, t, inPathways, inSamePathway, brelax)
    requires Encodes(r2, t, inPathways, inSamePathway, brelax)
    ensures r1 == r2
  {
  }
}
