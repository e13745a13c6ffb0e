/**
 * The B-relaxation steps of the per-file loop: `preprocess_brelax_dicts` (lines 157-179),
 * a cache of relaxation results keyed by the first endpoint of each pair, and
 * `get_bconn_interactions` (lines 181-203), the least distance from the first endpoint's
 * relaxation to any membership node of the second endpoint.
 *
 * The relaxation itself belongs to a library that is not part of this model; it is the
 * parameter `relax`, from the source node set to a distance per node (None when unreachable).
 */
module BRelax {
  import opened Common

  /** A distance per node, None when the node is unreachable. */
  type Distances<N> = map<N, Option<nat>>

  /** `LARGE_VAL` (line 14): the score a pair keeps when no distance is found. */
  const LargeVal: nat := 10000000

  /** The first endpoints of a set of pairs (line 162). */
  ghost function FirstEndpoints<N>(pairs: set<(N, N)>): set<N>
  {
    set p | p in pairs :: p.0
  }

  /** Every cached labeling is the relaxation of its node's membership set. */
  ghost predicate Coherent<N>(cache: map<N, Distances<N>>, membership: map<N, set<N>>, relax: set<N> -> Distances<N>)
  {
    forall n :: n in cache ==> n in membership && cache[n] == relax(membership[n])
  }

  /** What the memo yields for `n`: the cached distances, else those relaxation computes. */
  ghost function Memo<N>(processed: map<N, Distances<N>>, membership: map<N, set<N>>,
                         relax: set<N> -> Distances<N>, n: N): Distances<N>
    requires n in processed || n in membership
  {
    if n in processed then processed[n] else relax(membership[n])
  }

  /**
   * Lines 157-179: the relaxation of every first endpoint, taken from the cache when present
   * and otherwise computed from the endpoint's membership set and added to the cache.
   */
  method PreprocessBRelax<N(==)>(pairs: set<(N, N)>, membership: map<N, set<N>>, relax: set<N> -> Distances<N>,
                                 processed: map<N, Distances<N>>)
    returns (nodeBrelax: map<N, Distances<N>>, processed': map<N, Distances<N>>)
    requires forall p :: p in pairs && p.0 !in processed ==> p.0 in membership
    ensures nodeBrelax.Keys == FirstEndpoints(pairs)
    ensures forall n :: n in nodeBrelax && n in processed ==> nodeBrelax[n] == processed[n]
    ensures forall n :: n in nodeBrelax && n !in processed ==> n in membership && nodeBrelax[n] == relax(membership[n])
    ensures processed'.Keys == processed.Keys + FirstEndpoints(pairs)
    ensures forall n :: n in processed ==> processed'[n] == processed[n]
    ensures forall n :: n in processed' && n !in processed ==> processed'[n] == nodeBrelax[n]
  {
    var firsts := set p | p in pairs :: p.0;
    nodeBrelax, processed' := RelaxAll(firsts, membership, relax, processed);
  }

  /**
   * The state of the loop of lines 164-177 while `rest` is still to be handled: the result holds
   * the memo's value for exactly the handled nodes, and the cache holds it for the original
   * cache's keys and the handled nodes.
   */
  ghost predicate RelaxState<N>(firsts: set<N>, rest: set<N>, membership: map<N, set<N>>, relax: set<N> -> Distances<N>,
                                processed: map<N, Distances<N>>, nodeBrelax: map<N, Distances<N>>, cache: map<N, Distances<N>>)
  {
    rest <= firsts &&
    (forall n :: n in firsts && n !in processed ==> n in membership) &&
    (forall n :: n in nodeBrelax ==> n in firsts && n !in rest) &&
    (forall n :: n in firsts && n !in rest ==> n in nodeBrelax) &&
    (forall n :: n in cache ==> n in processed || n in nodeBrelax) &&
    (forall n :: n in processed ==> n in cache) &&
    (forall n :: n in nodeBrelax ==> n in cache) &&
    (forall n :: n in nodeBrelax ==> nodeBrelax[n] == Memo(processed, membership, relax, n)) &&
    (forall n :: n in cache ==> cache[n] == Memo(processed, membership, relax, n))
  }

  /** Handling one more node keeps the loop state. */
  lemma RelaxStep<N>(firsts: set<N>, rest: set<N>, membership: map<N, set<N>>, relax: set<N> -> Distances<N>,
                     processed: map<N, Distances<N>>, nodeBrelax: map<N, Distances<N>>, cache: map<N, Distances<N>>,
                     n1: N, entry: Distances<N>)
    requires RelaxState(firsts, rest, membership, relax, processed, nodeBrelax, cache)
    requires n1 in rest && (n1 in cache || n1 in membership)
    requires entry == Memo(cache, membership, relax, n1)
    ensures RelaxState(firsts, rest - {n1}, membership, relax, processed, nodeBrelax[n1 := entry], cache[n1 := entry])
  {
    assert entry == Memo(processed, membership, relax, n1);
  }

  /** What the loop state says once no node is left. */
  lemma RelaxDone<N>(firsts: set<N>, membership: map<N, set<N>>, relax: set<N> -> Distances<N>,
                     processed: map<N, Distances<N>>, nodeBrelax: map<N, Distances<N>>, cache: map<N, Distances<N>>)
    requires RelaxState(firsts, {}, membership, relax, processed, nodeBrelax, cache)
    ensures nodeBrelax.Keys == firsts
    ensures forall n :: n in nodeBrelax && n in processed ==> nodeBrelax[n] == processed[n]
    ensures forall n :: n in nodeBrelax && n !in processed ==> n in membership && nodeBrelax[n] == relax(membership[n])
    ensures cache.Keys == processed.Keys + firsts
    ensures forall n :: n in processed ==> cache[n] == processed[n]
    ensures forall n :: n in cache && n !in processed ==> cache[n] == nodeBrelax[n]
  {
  }

  /**
   * The loop of lines 164-177 over the node set of line 162: each node's distances come from
   * the cache when it has them, otherwise from relaxing the node's membership set.
   */
  method RelaxAll<N(==)>(firsts: set<N>, membership: map<N, set<N>>, relax: set<N> -> Distances<N>,
                         processed: map<N, Distances<N>>)
    returns (nodeBrelax: map<N, Distances<N>>, processed': map<N, Distances<N>>)
    requires forall n :: n in firsts && n !in processed ==> n in membership
    ensures nodeBrelax.Keys == firsts
    ensures forall n :: n in nodeBrelax && n in processed ==> nodeBrelax[n] == processed[n]
    ensures forall n :: n in nodeBrelax && n !in processed ==> n in membership && nodeBrelax[n] == relax(membership[n])
    ensures processed'.Keys == processed.Keys + firsts
    ensures forall n :: n in processed ==> processed'[n] == processed[n]
    ensures forall n :: n in processed' && n !in processed ==> processed'[n] == nodeBrelax[n]
  {
    nodeBrelax := map[];
    processed' := processed;
    var rest := firsts;
    while rest != {}
      invariant RelaxState(firsts, rest, membership, relax, processed, nodeBrelax, processed')
      decreases |rest|
    {
      var n1 :| n1 in rest;
      var entry;
      ghost var cache := processed';
      entry, processed' := Lookup(n1, membership, relax, processed');
      RelaxStep(firsts, rest, membership, relax, processed, nodeBrelax, cache, n1, entry);
      nodeBrelax := nodeBrelax[n1 := entry];
      rest := rest - {n1};
    }
    RelaxDone(firsts, membership, relax, processed, nodeBrelax, processed');
  }

  /**
   * The body of the loop of lines 164-177 for one node: the cached distances when there are
   * any, otherwise the relaxation of the node's membership set, which is then cached.
   */
  method Lookup<N(==)>(n1: N, membership: map<N, set<N>>, relax: set<N> -> Distances<N>, processed: map<N, Distances<N>>)
    returns (entry: Distances<N>, processed': map<N, Distances<N>>)
    requires n1 !in processed ==> n1 in membership
    ensures entry == Memo(processed, membership, relax, n1)
    ensures processed' == processed[n1 := entry]
  {
    if n1 in processed {
      entry := processed[n1];
      processed' := processed;
      assert processed' == processed[n1 := entry];
    } else {
      entry := relax(membership[n1]);
      processed' := processed[n1 := entry];
    }
  }

  /**
   * The memo is sound: when every cached entry is the relaxation of its node's membership set,
   * so is every returned entry and every entry of the new cache.
   */
  lemma CacheStaysCoherent<N>(membership: map<N, set<N>>, relax: set<N> -> Distances<N>,
                              processed: map<N, Distances<N>>, nodeBrelax: map<N, Distances<N>>, processed': map<N, Distances<N>>)
    requires Coherent(processed, membership, relax)
    requires forall n :: n in nodeBrelax && n in processed ==> nodeBrelax[n] == processed[n]
    requires forall n :: n in nodeBrelax && n !in processed ==> n in membership && nodeBrelax[n] == relax(membership[n])
    requires processed'.Keys == processed.Keys + nodeBrelax.Keys
    requires forall n :: n in processed ==> processed'[n] == processed[n]
    requires forall n :: n in processed' && n !in processed ==> processed'[n] == nodeBrelax[n]
    ensures Coherent(nodeBrelax, membership, relax)
    ensures Coherent(processed', membership, relax)
  {
  }

  /** `n` has a distance in `dist` below the sentinel. */
  predicate Reaches<N>(dist: Distances<N>, n: N)
    requires n in dist
  {
    dist[n].Some? && dist[n].value < LargeVal
  }

  /**
   * The accumulator loop of lines 196-199: the least distance `dist` gives any node of `ns`,
   * starting from the sentinel.
   */
  method MinDistance<N(==)>(dist: Distances<N>, ns: set<N>) returns (score: nat)
    requires ns <= dist.Keys
    ensures score <= LargeVal
    ensures forall n :: n in ns && dist[n].Some? ==> score <= dist[n].value
    ensures score < LargeVal ==> exists n :: n in ns && dist[n] == Some(score)
    ensures score < LargeVal <==> exists n :: n in ns && Reaches(dist, n)
  {
    score := LargeVal;
    var rest := ns;
    while rest != {}
      invariant rest <= ns
      invariant score <= LargeVal
      invariant forall n :: n in ns && n !in rest && dist[n].Some? ==> score <= dist[n].value
      invariant score < LargeVal ==> exists n :: n in ns && dist[n] == Some(score)
      invariant score < LargeVal <==> exists n :: n in ns && n !in rest && Reaches(dist, n)
      decreases |rest|
    {
      var n :| n in rest;
      if dist[n] != None {
        score := Min(score, dist[n].value);
      }
      rest := rest - {n};
    }
  }

  /** Python's `min` on two integers. */
  function Min(a: nat, b: nat): (m: nat)
    ensures m <= a && m <= b && (m == a || m == b)
  {
    if b < a then b else a
  }

  /**
   * Lines 181-203: for each pair, the least distance from the first endpoint's relaxation to a
   * membership node of the second endpoint, recorded only when it is below the sentinel.
   */
  method GetBConnInteractions<N(==)>(brelax: map<N, Distances<N>>, pairs: set<(N, N)>, membership: map<N, set<N>>)
    returns (r: map<(N, N), nat>)
    requires forall p :: p in pairs ==> p.0 in brelax && p.1 in membership && membership[p.1] <= brelax[p.0].Keys
    ensures r.Keys <= pairs
    ensures forall p :: p in pairs ==> (p in r <==> exists n :: n in membership[p.1] && Reaches(brelax[p.0], n))
    ensures forall p, n :: p in r && n in membership[p.1] && brelax[p.0][n].Some? ==> r[p] <= brelax[p.0][n].value
    ensures forall p :: p in r ==> r[p] < LargeVal && exists n :: n in membership[p.1] && brelax[p.0][n] == Some(r[p])
  {
    r := map[];
    var rest := pairs;
    while rest != {}
      invariant rest <= pairs
      invariant r.Keys <= pairs - rest
      invariant forall p :: p in pairs && p !in rest ==>
                  (p in r <==> exists n :: n in membership[p.1] && Reaches(brelax[p.0], n))
      invariant forall p, n :: p in r && n in membership[p.1] && brelax[p.0][n].Some? ==> r[p] <= brelax[p.0][n].value
      invariant forall p :: p in r ==> r[p] < LargeVal && exists n :: n in membership[p.1] && brelax[p.0][n] == Some(r[p])
      decreases |rest|
    {
      var p :| p in rest;
      var (n1, n2) := p;
      var distDict := brelax[n1];
      var n2Nodes := membership[n2];
      var score := MinDistance(distDict, n2Nodes);
      if score < LargeVal {
        r := r[p := score];
      }
      rest := rest - {p};
    }
  }
}
