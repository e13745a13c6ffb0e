/**
 * The membership map built at the start of `main`: every node, and every member of a
 * complex (hypernode) or entity set, is mapped to the set of aggregate nodes that list it.
 * The hypergraph is a map from node to its attributes; the order in which the source's
 * set iteration visits the nodes is an explicit enumeration `order` of that map's keys.
 */
module Membership {
  import opened Common

  /** The attributes the loader attaches to a node. The two flags are independent: a node may be both. */
  datatype NodeAttrs<N> = NodeAttrs(isHypernode: bool, hypernodeMembers: seq<N>,
                                    isEntitySet: bool, entitySetMembers: seq<N>)

  /** Node identifiers are compared only for equality, so they are a type parameter. */
  type Hypergraph<N> = map<N, NodeAttrs<N>>

  /** The identifiers an aggregate lists: its complex members if flagged, then its entity-set members if flagged. */
  ghost function Listed<N>(a: NodeAttrs<N>): seq<N>
  {
    (if a.isHypernode then a.hypernodeMembers else []) + (if a.isEntitySet then a.entitySetMembers else [])
  }

  /** The set of identifiers an aggregate lists. */
  ghost function Members<N>(a: NodeAttrs<N>): set<N>
  {
    SetOf(Listed(a))
  }

  /** An aggregate's members are its complex members if flagged and its entity-set members if flagged. */
  lemma MembersContains<N>(a: NodeAttrs<N>, k: N)
    ensures k in Members(a) <==>
            (a.isHypernode && k in a.hypernodeMembers) || (a.isEntitySet && k in a.entitySetMembers)
  {
    SetOfContains(Listed(a), k);
  }

  /** `order` visits nodes of `H`, none twice. */
  ghost predicate Visits<N>(order: seq<N>, H: Hypergraph<N>)
  {
    && (forall i :: 0 <= i < |order| ==> order[i] in H)
    && (forall i, j :: 0 <= i < j < |order| ==> order[i] != order[j])
  }

  /** `order` visits every node of `H` exactly once: the order of the source's set iteration. */
  ghost predicate Enumerates<N>(order: seq<N>, H: Hypergraph<N>)
  {
    Visits(order, H) && |order| == |H|
  }

  /** A repetition-free sequence has as many distinct elements as positions. */
  lemma {:induction false} DistinctCard<N>(s: seq<N>)
    requires forall i, j :: 0 <= i < j < |s| ==> s[i] != s[j]
    ensures |set x | x in s| == |s|
  {
    if |s| > 0 {
      var t := s[..|s| - 1];
      DistinctCard(t);
      assert (set x | x in s) == (set x | x in t) + {s[|s| - 1]};
      assert forall j :: 0 <= j < |t| ==> t[j] != s[|s| - 1];
    }
  }

  /** Sets with the same elements are equal. */
  lemma SameElements<N>(A: set<N>, B: set<N>)
    requires forall x :: x in A <==> x in B
    ensures A == B
  {
  }

  /** A subset as large as its superset is the superset. */
  lemma SubsetOfSameSize<N>(A: set<N>, B: set<N>)
    requires A <= B && |A| == |B|
    ensures A == B
  {
    assert |B - A| == |B| - |A|;
  }

  /** An enumeration visits every node. */
  lemma EnumerationCovers<N>(order: seq<N>, H: Hypergraph<N>)
    requires Enumerates(order, H)
    ensures H.Keys == set x | x in order
  {
    var S := set x | x in order;
    DistinctCard(order);
    SubsetOfSameSize(S, H.Keys);
  }

  /** Every node of H together with every member any node lists. */
  ghost function Universe<N>(H: Hypergraph<N>): set<N>
  {
    H.Keys + (set n, m | n in H && m in Members(H[n]) :: m)
  }

  /** The nodes of H that list `k` as a member. */
  ghost function Owners<N>(H: Hypergraph<N>, k: N): set<N>
  {
    set n | n in H && k in Members(H[n])
  }

  /** `k` is visited among the first `i` nodes of `order`, and no node visited before it lists `k`. */
  ghost predicate SelfEntered<N>(H: Hypergraph<N>, order: seq<N>, i: nat, k: N)
    requires i <= |order| && forall x :: 0 <= x < |order| ==> order[x] in H
  {
    exists x :: 0 <= x < i && order[x] == k && UnlistedBefore(H, order, x, k)
  }

  /** No node among the first `x` visits lists `k`. */
  ghost predicate UnlistedBefore<N>(H: Hypergraph<N>, order: seq<N>, x: nat, k: N)
    requires x <= |order| && forall y :: 0 <= y < |order| ==> order[y] in H
  {
    forall y :: 0 <= y < x ==> k !in Members(H[order[y]])
  }

  /** The entry the source's loop leaves for `k`: its owners, and `k` itself only if `k` had no entry when visited. */
  ghost function MembershipEntry<N>(H: Hypergraph<N>, order: seq<N>, k: N): set<N>
    requires Enumerates(order, H)
  {
    Owners(H, k) + (if SelfEntered(H, order, |order|, k) then {k} else {})
  }

  /** The entry with the self-membership made unconditional: owners, plus `k` whenever `k` is a node. */
  ghost function CorrectedEntry<N>(H: Hypergraph<N>, k: N): set<N>
  {
    Owners(H, k) + (if k in H then {k} else {})
  }

  /** The nodes and listed members met in the first `i` visits. */
  ghost function VisitedUniverse<N>(H: Hypergraph<N>, order: seq<N>, i: nat): set<N>
    requires i <= |order| && forall x :: 0 <= x < |order| ==> order[x] in H
  {
    if i == 0 then {}
    else VisitedUniverse(H, order, i - 1) + {order[i - 1]} + Members(H[order[i - 1]])
  }

  /** The nodes among the first `i` visits that list `k`. */
  ghost function VisitedOwners<N>(H: Hypergraph<N>, order: seq<N>, i: nat, k: N): set<N>
    requires i <= |order| && forall x :: 0 <= x < |order| ==> order[x] in H
  {
    if i == 0 then {}
    else VisitedOwners(H, order, i - 1, k) + (if k in Members(H[order[i - 1]]) then {order[i - 1]} else {})
  }

  /** The nodes among the first `i` visits that had no entry yet when they were visited. */
  ghost function FreshVisits<N>(H: Hypergraph<N>, order: seq<N>, i: nat): set<N>
    requires i <= |order| && forall x :: 0 <= x < |order| ==> order[x] in H
  {
    if i == 0 then {}
    else FreshVisits(H, order, i - 1) +
         (if order[i - 1] in VisitedUniverse(H, order, i - 1) then {} else {order[i - 1]})
  }

  // ---------------------------------------------------------------------------------------
  // The loop's effect on the map, one step at a time
  // ---------------------------------------------------------------------------------------

  /** `m` after `n` is added to the entry of every identifier in `ms`, creating missing entries. */
  ghost function WithOwner<N>(m: map<N, set<N>>, ms: seq<N>, n: N): map<N, set<N>>
    decreases |ms|
  {
    if ms == [] then m
    else
      var r := WithOwner(m, ms[..|ms| - 1], n);
      var x := ms[|ms| - 1];
      r[x := (if x in r then r[x] else {}) + {n}]
  }

  /** `m` after both member loops of the aggregate `n` with attributes `a`. */
  ghost function WithAggregate<N>(m: map<N, set<N>>, a: NodeAttrs<N>, n: N): map<N, set<N>>
  {
    var r := if a.isHypernode then WithOwner(m, a.hypernodeMembers, n) else m;
    if a.isEntitySet then WithOwner(r, a.entitySetMembers, n) else r
  }

  /** The map the as-written loop holds after `i` visits. */
  ghost function AsWrittenMap<N>(H: Hypergraph<N>, order: seq<N>, i: nat): map<N, set<N>>
    requires i <= |order| && forall x :: 0 <= x < |order| ==> order[x] in H
  {
    if i == 0 then map[]
    else
      var n := order[i - 1];
      var r := WithAggregate(AsWrittenMap(H, order, i - 1), H[n], n);
      if n !in r then r[n := {n}] else r
  }

  /** The map the corrected loop holds after `i` visits. */
  ghost function CorrectedMap<N>(H: Hypergraph<N>, order: seq<N>, i: nat): map<N, set<N>>
    requires i <= |order| && forall x :: 0 <= x < |order| ==> order[x] in H
  {
    if i == 0 then map[]
    else
      var n := order[i - 1];
      var r := WithAggregate(CorrectedMap(H, order, i - 1), H[n], n);
      r[n := (if n in r then r[n] else {}) + {n}]
  }

  /** The member loop gives every listed key an entry, and adds `n` to exactly the listed keys. */
  lemma {:induction false} WithOwnerAt<N>(m: map<N, set<N>>, ms: seq<N>, n: N, k: N)
    ensures k in WithOwner(m, ms, n) <==> k in m || k in ms
    ensures k in WithOwner(m, ms, n) ==>
      WithOwner(m, ms, n)[k] == (if k in m then m[k] else {}) + (if k in ms then {n} else {})
    decreases |ms|
  {
    if ms != [] {
      var p := ms[..|ms| - 1];
      WithOwnerAt(m, p, n, k);
      assert ms == p + [ms[|ms| - 1]];
    }
  }

  /** Both member loops give every member an entry, and add `n` to exactly the members. */
  lemma WithAggregateAt<N>(m: map<N, set<N>>, a: NodeAttrs<N>, n: N, k: N)
    ensures k in WithAggregate(m, a, n) <==> k in m || k in Members(a)
    ensures k in WithAggregate(m, a, n) ==>
      WithAggregate(m, a, n)[k] == (if k in m then m[k] else {}) + (if k in Members(a) then {n} else {})
  {
    var r := if a.isHypernode then WithOwner(m, a.hypernodeMembers, n) else m;
    WithOwnerAt(m, a.hypernodeMembers, n, k);
    WithOwnerAt(r, a.entitySetMembers, n, k);
    MembersContains(a, k);
  }

  // ---------------------------------------------------------------------------------------
  // Facts about the prefix functions
  // ---------------------------------------------------------------------------------------

  /** Only visited nodes are fresh visits. */
  lemma {:induction false} FreshVisited<N>(H: Hypergraph<N>, order: seq<N>, i: nat)
    requires Visits(order, H) && i <= |order|
    ensures forall k :: k in FreshVisits(H, order, i) ==> k in order[..i]
  {
    if i > 0 {
      FreshVisited(H, order, i - 1);
      assert order[..i] == order[..i - 1] + [order[i - 1]];
    }
  }

  /** A key not among the first `i` visits is in their universe exactly when one of them lists it. */
  lemma {:induction false} UniverseListed<N>(H: Hypergraph<N>, order: seq<N>, i: nat, k: N)
    requires Visits(order, H) && i <= |order| && k !in order[..i]
    ensures k in VisitedUniverse(H, order, i) <==> VisitedOwners(H, order, i, k) != {}
  {
    if i > 0 {
      assert order[..i] == order[..i - 1] + [order[i - 1]];
      UniverseListed(H, order, i - 1, k);
    }
  }

  /** The node visited at `i` was not visited before. */
  lemma NotYetVisited<N>(order: seq<N>, i: nat)
    requires i < |order| && forall x, y :: 0 <= x < y < |order| ==> order[x] != order[y]
    ensures order[i] !in order[..i]
  {
    assert forall x :: 0 <= x < i ==> order[..i][x] != order[i];
  }

  /** Self-entry after `i` visits: self-entered before, or the `i`-th visit is `k` and no earlier visit lists it. */
  lemma SelfEnteredStep<N>(H: Hypergraph<N>, order: seq<N>, i: nat, k: N)
    requires Visits(order, H) && 0 < i <= |order|
    ensures SelfEntered(H, order, i, k) <==>
            SelfEntered(H, order, i - 1, k) || (order[i - 1] == k && UnlistedBefore(H, order, i - 1, k))
  {
    if SelfEntered(H, order, i, k) {
      var x :| 0 <= x < i && order[x] == k && UnlistedBefore(H, order, x, k);
      if x < i - 1 {
        assert SelfEntered(H, order, i - 1, k);
      }
    }
    if order[i - 1] == k && UnlistedBefore(H, order, i - 1, k) {
      assert 0 <= i - 1 < i && order[i - 1] == k && UnlistedBefore(H, order, i - 1, k);
    }
  }

  /** No visit lists `k` exactly when the owners among the visits are none. */
  lemma {:induction false} UnlistedNoOwners<N>(H: Hypergraph<N>, order: seq<N>, i: nat, k: N)
    requires Visits(order, H) && i <= |order|
    ensures UnlistedBefore(H, order, i, k) <==> VisitedOwners(H, order, i, k) == {}
  {
    if i > 0 {
      UnlistedNoOwners(H, order, i - 1, k);
      if k in Members(H[order[i - 1]]) {
        assert order[i - 1] in VisitedOwners(H, order, i, k);
      }
    }
  }

  /** The fresh visits are exactly the self-entered nodes. */
  lemma {:induction false} FreshIsSelfEntered<N>(H: Hypergraph<N>, order: seq<N>, i: nat, k: N)
    requires Visits(order, H) && i <= |order|
    ensures k in FreshVisits(H, order, i) <==> SelfEntered(H, order, i, k)
  {
    if i > 0 {
      FreshIsSelfEntered(H, order, i - 1, k);
      SelfEnteredStep(H, order, i, k);
      UnlistedNoOwners(H, order, i - 1, k);
      var n := order[i - 1];
      if k == n {
        NotYetVisited(order, i - 1);
        FreshVisited(H, order, i - 1);
        UniverseListed(H, order, i - 1, n);
      }
    }
  }

  /** A node is in the prefix universe exactly when one of the first `i` visits is it or lists it. */
  lemma {:induction false} UniverseAt<N>(H: Hypergraph<N>, order: seq<N>, i: nat, x: N)
    requires Visits(order, H) && i <= |order|
    ensures x in VisitedUniverse(H, order, i) <==>
            exists j :: 0 <= j < i && (order[j] == x || x in Members(H[order[j]]))
  {
    if i > 0 {
      UniverseAt(H, order, i - 1, x);
      if x == order[i - 1] || x in Members(H[order[i - 1]]) {
        assert 0 <= i - 1 < i && (order[i - 1] == x || x in Members(H[order[i - 1]]));
      }
    }
  }

  /** The prefix owners of `k` are the visited nodes listing `k`. */
  lemma {:induction false} OwnersPrefix<N>(H: Hypergraph<N>, order: seq<N>, i: nat, k: N)
    requires Visits(order, H) && i <= |order|
    ensures VisitedOwners(H, order, i, k) == set n | n in order[..i] && k in Members(H[n])
  {
    if i > 0 {
      OwnersPrefix(H, order, i - 1, k);
      assert order[..i] == order[..i - 1] + [order[i - 1]];
    }
  }

  /** After a whole enumeration, a node is in the visited universe exactly when it is in the universe of H. */
  lemma UniverseAllAt<N>(H: Hypergraph<N>, order: seq<N>, x: N)
    requires Enumerates(order, H)
    ensures x in VisitedUniverse(H, order, |order|) <==> x in Universe(H)
  {
    EnumerationCovers(order, H);
    UniverseAt(H, order, |order|, x);
    if x in VisitedUniverse(H, order, |order|) {
      var j :| 0 <= j < |order| && (order[j] == x || x in Members(H[order[j]]));
      var n := order[j];
      assert n in H;
    }
    if x in Universe(H) {
      var n :| n in H && (n == x || x in Members(H[n]));
      assert n in set y | y in order;
      var j :| 0 <= j < |order| && order[j] == n;
      assert order[j] == x || x in Members(H[order[j]]);
    }
  }

  /** After a whole enumeration the visited owners of `k` are its owners in H. */
  lemma OwnersAll<N>(H: Hypergraph<N>, order: seq<N>, k: N)
    requires Enumerates(order, H)
    ensures VisitedOwners(H, order, |order|, k) == Owners(H, k)
  {
    OwnersPrefix(H, order, |order|, k);
    EnumerationCovers(order, H);
    assert order[..|order|] == order;
  }

  /** A key outside the prefix universe has no owners and no self-entry yet, and was not visited. */
  lemma {:induction false} AbsentKey<N>(H: Hypergraph<N>, order: seq<N>, i: nat, k: N)
    requires Visits(order, H) && i <= |order| && k !in VisitedUniverse(H, order, i)
    ensures k !in order[..i] && VisitedOwners(H, order, i, k) == {} && k !in FreshVisits(H, order, i)
  {
    if i > 0 {
      AbsentKey(H, order, i - 1, k);
      assert order[..i] == order[..i - 1] + [order[i - 1]];
    }
  }

  // ---------------------------------------------------------------------------------------
  // The loop's map, key by key
  // ---------------------------------------------------------------------------------------

  /** The entry the as-written loop keeps for `k` after `i` visits. */
  ghost function AsWrittenEntry<N>(H: Hypergraph<N>, order: seq<N>, i: nat, k: N): set<N>
    requires i <= |order| && forall x :: 0 <= x < |order| ==> order[x] in H
  {
    VisitedOwners(H, order, i, k) + (if k in FreshVisits(H, order, i) then {k} else {})
  }

  /** The entry the corrected loop keeps for `k` after `i` visits. */
  ghost function CorrectedPrefixEntry<N>(H: Hypergraph<N>, order: seq<N>, i: nat, k: N): set<N>
    requires i <= |order| && forall x :: 0 <= x < |order| ==> order[x] in H
  {
    VisitedOwners(H, order, i, k) + (if k in order[..i] then {k} else {})
  }

  /**
   * One visit of the as-written loop on one key whose entry was `b` (if present) and is `a`
   * after the member loops: the entry gains the visited node if it lists the key, and a key
   * first met as the visited node itself gets an entry holding only itself.
   */
  lemma AsWrittenStep<N>(H: Hypergraph<N>, order: seq<N>, i: nat, k: N, present: bool, b: set<N>, a: set<N>)
    requires Visits(order, H) && i < |order|
    requires present <==> k in VisitedUniverse(H, order, i)
    requires present ==> b == AsWrittenEntry(H, order, i, k)
    requires a == (if present then b else {}) + (if k in Members(H[order[i]]) then {order[i]} else {})
    ensures AsWrittenEntry(H, order, i + 1, k) ==
      if k == order[i] && !present && k !in Members(H[order[i]]) then {k} else a
  {
    if !present {
      AbsentKey(H, order, i, k);
    }
    if k == order[i] {
      NotYetVisited(order, i);
      FreshVisited(H, order, i);
    }
  }

  /** One visit of the corrected loop on one key: the visited node always enters its own entry. */
  lemma CorrectedStep<N>(H: Hypergraph<N>, order: seq<N>, i: nat, k: N, present: bool, b: set<N>, a: set<N>)
    requires Visits(order, H) && i < |order|
    requires present <==> k in VisitedUniverse(H, order, i)
    requires present ==> b == CorrectedPrefixEntry(H, order, i, k)
    requires a == (if present then b else {}) + (if k in Members(H[order[i]]) then {order[i]} else {})
    ensures CorrectedPrefixEntry(H, order, i + 1, k) == if k == order[i] then a + {k} else a
  {
    assert order[..i + 1] == order[..i] + [order[i]];
    if !present {
      AbsentKey(H, order, i, k);
    }
  }

  /** After `i` visits the as-written map has an entry for exactly the visited universe, holding `AsWrittenEntry`. */
  lemma {:induction false} AsWrittenAt<N>(H: Hypergraph<N>, order: seq<N>, i: nat, k: N)
    requires Visits(order, H) && i <= |order|
    ensures k in AsWrittenMap(H, order, i) <==> k in VisitedUniverse(H, order, i)
    ensures k in AsWrittenMap(H, order, i) ==> AsWrittenMap(H, order, i)[k] == AsWrittenEntry(H, order, i, k)
  {
    if i > 0 {
      var n := order[i - 1];
      var prev := AsWrittenMap(H, order, i - 1);
      var r := WithAggregate(prev, H[n], n);
      AsWrittenAt(H, order, i - 1, k);
      WithAggregateAt(prev, H[n], n, k);
      WithAggregateAt(prev, H[n], n, n);
      AsWrittenStep(H, order, i - 1, k, k in prev, if k in prev then prev[k] else {}, if k in r then r[k] else {});
    }
  }

  /** After `i` visits the corrected map has an entry for exactly the visited universe, holding `CorrectedPrefixEntry`. */
  lemma {:induction false} CorrectedAt<N>(H: Hypergraph<N>, order: seq<N>, i: nat, k: N)
    requires Visits(order, H) && i <= |order|
    ensures k in CorrectedMap(H, order, i) <==> k in VisitedUniverse(H, order, i)
    ensures k in CorrectedMap(H, order, i) ==> CorrectedMap(H, order, i)[k] == CorrectedPrefixEntry(H, order, i, k)
  {
    if i > 0 {
      var n := order[i - 1];
      var prev := CorrectedMap(H, order, i - 1);
      var r := WithAggregate(prev, H[n], n);
      CorrectedAt(H, order, i - 1, k);
      WithAggregateAt(prev, H[n], n, k);
      CorrectedStep(H, order, i - 1, k, k in prev, if k in prev then prev[k] else {}, if k in r then r[k] else {});
    }
  }

  /** The completed as-written loop on one key: an entry exactly for the universe, holding `MembershipEntry`. */
  lemma AsWrittenDoneAt<N>(H: Hypergraph<N>, order: seq<N>, k: N)
    requires Enumerates(order, H)
    ensures k in AsWrittenMap(H, order, |order|) <==> k in Universe(H)
    ensures k in AsWrittenMap(H, order, |order|) ==> AsWrittenMap(H, order, |order|)[k] == MembershipEntry(H, order, k)
  {
    AsWrittenAt(H, order, |order|, k);
    UniverseAllAt(H, order, k);
    OwnersAll(H, order, k);
    FreshIsSelfEntered(H, order, |order|, k);
  }

  /** The completed corrected loop on one key: an entry exactly for the universe, holding `CorrectedEntry`. */
  lemma CorrectedDoneAt<N>(H: Hypergraph<N>, order: seq<N>, k: N)
    requires Enumerates(order, H)
    ensures k in CorrectedMap(H, order, |order|) <==> k in Universe(H)
    ensures k in CorrectedMap(H, order, |order|) ==> CorrectedMap(H, order, |order|)[k] == CorrectedEntry(H, k)
  {
    assert order[..|order|] == order;
    EnumerationCovers(order, H);
    CorrectedAt(H, order, |order|, k);
    UniverseAllAt(H, order, k);
    OwnersAll(H, order, k);
  }

  /** The completed as-written loop: an entry for every node of the universe, holding its owners and possibly itself. */
  lemma AsWrittenDone<N>(H: Hypergraph<N>, order: seq<N>)
    requires Enumerates(order, H)
    ensures AsWrittenMap(H, order, |order|).Keys == Universe(H)
    ensures VisitedUniverse(H, order, |order|) == Universe(H)
    ensures forall k :: k in AsWrittenMap(H, order, |order|) ==>
      AsWrittenMap(H, order, |order|)[k] == MembershipEntry(H, order, k)
  {
    forall k | k in AsWrittenMap(H, order, |order|)
      ensures AsWrittenMap(H, order, |order|)[k] == MembershipEntry(H, order, k)
    {
      AsWrittenDoneAt(H, order, k);
    }
    forall k
      ensures k in AsWrittenMap(H, order, |order|) <==> k in Universe(H)
    {
      AsWrittenDoneAt(H, order, k);
    }
    SameElements(AsWrittenMap(H, order, |order|).Keys, Universe(H));
    forall x
      ensures x in VisitedUniverse(H, order, |order|) <==> x in Universe(H)
    {
      UniverseAllAt(H, order, x);
    }
    SameElements(VisitedUniverse(H, order, |order|), Universe(H));
  }

  /** The completed corrected loop: an entry for every node of the universe, holding its owners and itself if a node. */
  lemma CorrectedDone<N>(H: Hypergraph<N>, order: seq<N>)
    requires Enumerates(order, H)
    ensures CorrectedMap(H, order, |order|).Keys == Universe(H)
    ensures VisitedUniverse(H, order, |order|) == Universe(H)
    ensures forall k :: k in CorrectedMap(H, order, |order|) ==>
      CorrectedMap(H, order, |order|)[k] == CorrectedEntry(H, k)
  {
    forall k | k in CorrectedMap(H, order, |order|)
      ensures CorrectedMap(H, order, |order|)[k] == CorrectedEntry(H, k)
    {
      CorrectedDoneAt(H, order, k);
    }
    forall k
      ensures k in CorrectedMap(H, order, |order|) <==> k in Universe(H)
    {
      CorrectedDoneAt(H, order, k);
    }
    SameElements(CorrectedMap(H, order, |order|).Keys, Universe(H));
    forall x
      ensures x in VisitedUniverse(H, order, |order|) <==> x in Universe(H)
    {
      UniverseAllAt(H, order, x);
    }
    SameElements(VisitedUniverse(H, order, |order|), Universe(H));
  }

  // ---------------------------------------------------------------------------------------
  // The loops of `main`
  // ---------------------------------------------------------------------------------------

  /** One member loop (lines 30-33 and 37-40): `n` joins the entry of every listed member. */
  method AddOwner<N(==)>(membership: map<N, set<N>>, ms: seq<N>, n: N) returns (r: map<N, set<N>>)
    ensures r == WithOwner(membership, ms, n)
  {
    r := membership;
    for j := 0 to |ms|
      invariant r == WithOwner(membership, ms[..j], n)
    {
      assert ms[..j + 1][..j] == ms[..j];
      var m := ms[j];
      if m !in r {
        r := r[m := {}];
      }
      r := r[m := r[m] + {n}];
    }
    assert ms[..|ms|] == ms;
  }

  /** A visited node's nodes-set update: the visited universe gains the node and what it lists. */
  lemma NodesStep<N>(H: Hypergraph<N>, order: seq<N>, i: nat, nodes: set<N>)
    requires Visits(order, H) && i < |order| && nodes == VisitedUniverse(H, order, i)
    ensures VisitedUniverse(H, order, i + 1) ==
      nodes + (if H[order[i]].isHypernode then set m | m in H[order[i]].hypernodeMembers else {})
            + (if H[order[i]].isEntitySet then set m | m in H[order[i]].entitySetMembers else {})
            + {order[i]}
  {
    var a := H[order[i]];
    var listed := (if a.isHypernode then set m | m in a.hypernodeMembers else {})
                + (if a.isEntitySet then set m | m in a.entitySetMembers else {});
    forall k
      ensures k in Members(a) <==> k in listed
    {
      MembersContains(a, k);
    }
    SameElements(Members(a), listed);
    assert VisitedUniverse(H, order, i + 1) == nodes + {order[i]} + Members(a);
  }

  /**
   * The membership loop of `main` (lines 25-44) as written, visiting the nodes in `order`.
   * `nodes` is every node with every listed member; the entry of `k` holds the aggregates
   * listing `k`, and holds `k` itself only when no aggregate visited before `k` lists it.
   */
  method BuildMembership<N(==)>(H: Hypergraph<N>, order: seq<N>) returns (nodes: set<N>, membership: map<N, set<N>>)
    requires Enumerates(order, H)
    ensures nodes == Universe(H)
    ensures membership.Keys == nodes
    ensures forall k :: k in membership ==> membership[k] == MembershipEntry(H, order, k)
  {
    nodes := {};
    membership := map[];
    for i := 0 to |order|
      invariant membership == AsWrittenMap(H, order, i)
      invariant nodes == VisitedUniverse(H, order, i)
    {
      var n := order[i];
      var attrs := H[n];
      NodesStep(H, order, i, nodes);
      ghost var r := WithAggregate(membership, attrs, n);
      if attrs.isHypernode {
        nodes := nodes + (set m | m in attrs.hypernodeMembers);
        membership := AddOwner(membership, attrs.hypernodeMembers, n);
      }
      if attrs.isEntitySet {
        nodes := nodes + (set m | m in attrs.entitySetMembers);
        membership := AddOwner(membership, attrs.entitySetMembers, n);
      }
      assert membership == r;
      nodes := nodes + {n};
      if n !in membership {
        membership := membership[n := {n}];
      }
    }
    AsWrittenDone(H, order);
  }

  /**
   * The membership loop with the self-entry made unconditional: every visited node is added
   * to its own entry, whether or not an earlier aggregate created that entry.
   */
  method BuildMembershipCorrected<N(==)>(H: Hypergraph<N>, order: seq<N>) returns (nodes: set<N>, membership: map<N, set<N>>)
    requires Enumerates(order, H)
    ensures nodes == Universe(H)
    ensures membership.Keys == nodes
    ensures forall k :: k in membership ==> membership[k] == CorrectedEntry(H, k)
  {
    nodes := {};
    membership := map[];
    for i := 0 to |order|
      invariant membership == CorrectedMap(H, order, i)
      invariant nodes == VisitedUniverse(H, order, i)
    {
      var n := order[i];
      var attrs := H[n];
      NodesStep(H, order, i, nodes);
      ghost var r := WithAggregate(membership, attrs, n);
      if attrs.isHypernode {
        nodes := nodes + (set m | m in attrs.hypernodeMembers);
        membership := AddOwner(membership, attrs.hypernodeMembers, n);
      }
      if attrs.isEntitySet {
        nodes := nodes + (set m | m in attrs.entitySetMembers);
        membership := AddOwner(membership, attrs.entitySetMembers, n);
      }
      assert membership == r;
      nodes := nodes + {n};
      membership := membership[n := (if n in membership then membership[n] else {}) + {n}];
    }
    CorrectedDone(H, order);
  }

  /** The corrected membership map as a whole: an entry for every node of the universe. */
  ghost function CorrectedMembership<N>(H: Hypergraph<N>): map<N, set<N>>
  {
    map k | k in Universe(H) :: CorrectedEntry(H, k)
  }

  /** A map with the universe as keys and the corrected entries as values is the corrected membership map. */
  lemma IsCorrectedMembership<N>(H: Hypergraph<N>, m: map<N, set<N>>)
    requires m.Keys == Universe(H)
    requires forall k :: k in m ==> m[k] == CorrectedEntry(H, k)
    ensures m == CorrectedMembership(H)
  {
  }

  /**
   * The structure of an entry: every aggregate listing `k` is in it, and nothing else is
   * except `k` itself. The as-written entry is contained in the corrected one, and both hold
   * only nodes of H.
   */
  lemma EntryMeaning<N>(H: Hypergraph<N>, order: seq<N>, k: N)
    requires Enumerates(order, H)
    ensures forall n :: n in H && k in Members(H[n]) ==> n in MembershipEntry(H, order, k) && n in CorrectedEntry(H, k)
    ensures forall x :: x in CorrectedEntry(H, k) ==> x == k || (x in H && k in Members(H[x]))
    ensures k in H ==> k in CorrectedEntry(H, k)
    ensures MembershipEntry(H, order, k) <= CorrectedEntry(H, k)
    ensures CorrectedEntry(H, k) <= H.Keys
  {
    if SelfEntered(H, order, |order|, k) {
      var x :| 0 <= x < |order| && order[x] == k && UnlistedBefore(H, order, x, k);
      assert k in H;
    }
  }

  // ---------------------------------------------------------------------------------------
  // The self-entry depends on the visiting order
  // ---------------------------------------------------------------------------------------

  /** A complex `1` whose only member is the node `2`, and the node `2` itself. */
  ghost function ComplexAndMember(): Hypergraph<int>
  {
    map[1 := NodeAttrs(true, [2], false, []), 2 := NodeAttrs(false, [], false, [])]
  }

  /** The complex lists exactly node 2, and node 2 is listed only by the complex. */
  lemma ComplexAndMemberFacts()
    ensures ComplexAndMember().Keys == {1, 2}
    ensures Members(ComplexAndMember()[1]) == {2} && Members(ComplexAndMember()[2]) == {}
    ensures Owners(ComplexAndMember(), 2) == {1}
  {
    var H := ComplexAndMember();
    assert Listed(H[1]) == [2];
    assert Listed(H[2]) == [];
    SetOfContains([2], 2);
    forall x | x in SetOf([2])
      ensures x == 2
    {
      SetOfContains([2], x);
    }
  }

  /** Visiting the complex first leaves node 2 out of its own entry. */
  lemma ComplexFirstLosesSelf()
    ensures Enumerates([1, 2], ComplexAndMember())
    ensures MembershipEntry(ComplexAndMember(), [1, 2], 2) == {1}
  {
    var H := ComplexAndMember();
    var o := [1, 2];
    ComplexAndMemberFacts();
    assert !UnlistedBefore(H, o, 1, 2) by {
      assert 0 <= 0 < 1 && 2 in Members(H[o[0]]);
    }
    assert forall x :: 0 <= x < 2 && o[x] == 2 ==> x == 1;
  }

  /** Visiting node 2 first puts it in its own entry. */
  lemma MemberFirstKeepsSelf()
    ensures Enumerates([2, 1], ComplexAndMember())
    ensures MembershipEntry(ComplexAndMember(), [2, 1], 2) == {1, 2}
  {
    var H := ComplexAndMember();
    var o := [2, 1];
    ComplexAndMemberFacts();
    assert SelfEntered(H, o, 2, 2) by {
      assert 0 <= 0 < 2 && o[0] == 2 && UnlistedBefore(H, o, 0, 2);
    }
  }

  /**
   * The as-written entry of node 2 depends on the visiting order; the corrected entry holds
   * node 2 whatever the order.
   */
  lemma SelfEntryDependsOnOrder()
    ensures Enumerates([1, 2], ComplexAndMember()) && Enumerates([2, 1], ComplexAndMember())
    ensures MembershipEntry(ComplexAndMember(), [1, 2], 2) != MembershipEntry(ComplexAndMember(), [2, 1], 2)
    ensures 2 !in MembershipEntry(ComplexAndMember(), [1, 2], 2)
    ensures CorrectedEntry(ComplexAndMember(), 2) == {1, 2}
  {
    ComplexAndMemberFacts();
    ComplexFirstLosesSelf();
    MemberFirstKeepsSelf();
  }
}
