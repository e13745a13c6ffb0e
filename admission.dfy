/**
 * The admission filter of the per-file loop (lines 80-102): each interaction's endpoints are
 * mapped through `uniprot2pc`; an interaction is kept, translated, when both endpoints map
 * and both mapped identifiers are hypergraph nodes. Every rejected endpoint is recorded in
 * `missing` with the reason it was rejected.
 */
module Admission {
  import opened Common

  /** Why an endpoint was rejected. */
  datatype Reason = NotInPC | NotInHypergraph

  /** A `missing` entry: the mapped identifier, or "NA" when there is none, and the reason. */
  datatype MissingEntry = MissingEntry(pcId: Id, reason: Reason)

  /** The placeholder recorded for an identifier the mapping does not know. */
  const NA: Id := "NA"

  /** Both endpoints have an entry in the identifier mapping. */
  predicate Mapped(u2p: map<Id, Id>, t: Interaction)
  {
    t.n1 in u2p && t.n2 in u2p
  }

  /** Both endpoints map, and both mapped identifiers are nodes. */
  predicate Admissible(u2p: map<Id, Id>, nodes: set<Id>, t: Interaction)
  {
    Mapped(u2p, t) && u2p[t.n1] in nodes && u2p[t.n2] in nodes
  }

  /** The interaction with its endpoints replaced by their mapped identifiers. */
  function Translate(u2p: map<Id, Id>, t: Interaction): Interaction
    requires Mapped(u2p, t)
  {
    Interaction(u2p[t.n1], u2p[t.n2], t.score)
  }

  /** The kept list after the interactions `ts`: the admissible ones, translated, in input order. */
  ghost function Kept(u2p: map<Id, Id>, nodes: set<Id>, ts: seq<Interaction>): seq<Interaction>
  {
    if ts == [] then []
    else
      var t := ts[|ts| - 1];
      Kept(u2p, nodes, ts[..|ts| - 1]) + (if Admissible(u2p, nodes, t) then [Translate(u2p, t)] else [])
  }

  /** How many of `ts` have an endpoint the mapping does not know. */
  ghost function CountUnmapped(u2p: map<Id, Id>, ts: seq<Interaction>): nat
  {
    if ts == [] then 0
    else CountUnmapped(u2p, ts[..|ts| - 1]) + (if Mapped(u2p, ts[|ts| - 1]) then 0 else 1)
  }

  /** How many of `ts` map on both ends but have a mapped endpoint that is not a node. */
  ghost function CountNotInHypergraph(u2p: map<Id, Id>, nodes: set<Id>, ts: seq<Interaction>): nat
  {
    if ts == [] then 0
    else
      var t := ts[|ts| - 1];
      CountNotInHypergraph(u2p, nodes, ts[..|ts| - 1]) +
      (if Mapped(u2p, t) && !Admissible(u2p, nodes, t) then 1 else 0)
  }

  /**
   * The endpoint `k` of `t` is recorded as missing: `t` has an unmapped endpoint and `k` is one,
   * or both endpoints map and `k`'s mapped identifier is not a node.
   */
  predicate RecordedBy(u2p: map<Id, Id>, nodes: set<Id>, t: Interaction, k: Id)
  {
    (k == t.n1 || k == t.n2) &&
    if Mapped(u2p, t) then u2p[k] !in nodes else k !in u2p
  }

  /** The endpoints of `t` recorded as missing. */
  ghost function RecordedIds(u2p: map<Id, Id>, nodes: set<Id>, t: Interaction): set<Id>
  {
    set k | k in {t.n1, t.n2} && RecordedBy(u2p, nodes, t, k)
  }

  /** The identifiers recorded as missing by the interactions `ts`. */
  ghost function MissingKeys(u2p: map<Id, Id>, nodes: set<Id>, ts: seq<Interaction>): set<Id>
  {
    if ts == [] then {}
    else MissingKeys(u2p, nodes, ts[..|ts| - 1]) + RecordedIds(u2p, nodes, ts[|ts| - 1])
  }

  /** The entry recorded for a missing identifier, which depends on the identifier alone. */
  function EntryFor(u2p: map<Id, Id>, k: Id): MissingEntry
  {
    if k in u2p then MissingEntry(u2p[k], NotInHypergraph) else MissingEntry(NA, NotInPC)
  }

  /**
   * The admission loop (lines 83-102). `kept` is the translated admissible interactions in
   * order, `missing` holds an entry for every rejected endpoint, and the two counters count
   * the interactions rejected for an unmapped endpoint and for a mapped endpoint outside
   * the hypergraph.
   */
  method AdmitInteractions(ts: seq<Interaction>, u2p: map<Id, Id>, nodes: set<Id>)
    returns (kept: seq<Interaction>, missing: map<Id, MissingEntry>, mismapped: nat, notInReactome: nat)
    ensures kept == Kept(u2p, nodes, ts)
    ensures missing.Keys == MissingKeys(u2p, nodes, ts)
    ensures forall k :: k in missing ==> missing[k] == EntryFor(u2p, k)
    ensures mismapped == CountUnmapped(u2p, ts)
    ensures notInReactome == CountNotInHypergraph(u2p, nodes, ts)
  {
    kept := [];
    missing := map[];
    mismapped := 0;
    notInReactome := 0;
    for i := 0 to |ts|
      invariant kept == Kept(u2p, nodes, ts[..i])
      invariant missing.Keys == MissingKeys(u2p, nodes, ts[..i])
      invariant forall k :: k in missing ==> missing[k] == EntryFor(u2p, k)
      invariant mismapped == CountUnmapped(u2p, ts[..i])
      invariant notInReactome == CountNotInHypergraph(u2p, nodes, ts[..i])
    {
      var t := ts[i];
      PrefixStep(u2p, nodes, ts, i);
      if t.n1 in u2p && t.n2 in u2p {
        var un1 := u2p[t.n1];
        var un2 := u2p[t.n2];
        if un1 in nodes && un2 in nodes {
          kept := kept + [Interaction(un1, un2, t.score)];
        } else {
          if un1 !in nodes {
            missing := missing[t.n1 := MissingEntry(un1, NotInHypergraph)];
          }
          if un2 !in nodes {
            missing := missing[t.n2 := MissingEntry(un2, NotInHypergraph)];
          }
          notInReactome := notInReactome + 1;
        }
      } else {
        if t.n1 !in u2p {
          missing := missing[t.n1 := MissingEntry(NA, NotInPC)];
        }
        if t.n2 !in u2p {
          missing := missing[t.n2 := MissingEntry(NA, NotInPC)];
        }
        mismapped := mismapped + 1;
      }
    }
    assert ts[..|ts|] == ts;
  }

  /** How the prefix functions grow by one interaction. */
  lemma PrefixStep(u2p: map<Id, Id>, nodes: set<Id>, ts: seq<Interaction>, i: nat)
    requires i < |ts|
    ensures Kept(u2p, nodes, ts[..i + 1]) ==
            Kept(u2p, nodes, ts[..i]) + (if Admissible(u2p, nodes, ts[i]) then [Translate(u2p, ts[i])] else [])
    ensures MissingKeys(u2p, nodes, ts[..i + 1]) == MissingKeys(u2p, nodes, ts[..i]) + RecordedIds(u2p, nodes, ts[i])
    ensures CountUnmapped(u2p, ts[..i + 1]) == CountUnmapped(u2p, ts[..i]) + (if Mapped(u2p, ts[i]) then 0 else 1)
    ensures CountNotInHypergraph(u2p, nodes, ts[..i + 1]) ==
            CountNotInHypergraph(u2p, nodes, ts[..i]) + (if Mapped(u2p, ts[i]) && !Admissible(u2p, nodes, ts[i]) then 1 else 0)
  {
    assert ts[..i + 1][..i] == ts[..i];
  }

  /** An interaction is kept, translated, exactly when some input interaction is admissible and translates to it. */
  lemma {:induction false} KeptIff(u2p: map<Id, Id>, nodes: set<Id>, ts: seq<Interaction>, r: Interaction)
    ensures r in Kept(u2p, nodes, ts) <==>
            exists i :: 0 <= i < |ts| && Admissible(u2p, nodes, ts[i]) && Translate(u2p, ts[i]) == r
  {
    if ts != [] {
      var p := ts[..|ts| - 1];
      KeptIff(u2p, nodes, p, r);
      var last := |ts| - 1;
      if exists i :: 0 <= i < |ts| && Admissible(u2p, nodes, ts[i]) && Translate(u2p, ts[i]) == r {
        var i :| 0 <= i < |ts| && Admissible(u2p, nodes, ts[i]) && Translate(u2p, ts[i]) == r;
        if i < last {
          assert p[i] == ts[i];
        }
      }
      if exists i :: 0 <= i < |p| && Admissible(u2p, nodes, p[i]) && Translate(u2p, p[i]) == r {
        var i :| 0 <= i < |p| && Admissible(u2p, nodes, p[i]) && Translate(u2p, p[i]) == r;
        assert ts[i] == p[i];
      }
    }
  }

  /** Filtering is done piece by piece: the kept list of a concatenation is the concatenation of kept lists. */
  lemma {:induction false} KeptAppend(u2p: map<Id, Id>, nodes: set<Id>, a: seq<Interaction>, b: seq<Interaction>)
    ensures Kept(u2p, nodes, a + b) == Kept(u2p, nodes, a) + Kept(u2p, nodes, b)
  {
    if b != [] {
      var b' := b[..|b| - 1];
      KeptAppend(u2p, nodes, a, b');
      assert (a + b)[..|a + b| - 1] == a + b';
    } else {
      assert a + b == a;
    }
  }

  /** Every interaction is kept or counted by exactly one of the two counters. */
  lemma {:induction false} AdmissionPartition(u2p: map<Id, Id>, nodes: set<Id>, ts: seq<Interaction>)
    ensures |Kept(u2p, nodes, ts)| + CountUnmapped(u2p, ts) + CountNotInHypergraph(u2p, nodes, ts) == |ts|
  {
    if ts != [] {
      AdmissionPartition(u2p, nodes, ts[..|ts| - 1]);
    }
  }

  /** An identifier is recorded as missing exactly when some input interaction records it. */
  lemma {:induction false} MissingKeysIff(u2p: map<Id, Id>, nodes: set<Id>, ts: seq<Interaction>, k: Id)
    ensures k in MissingKeys(u2p, nodes, ts) <==> exists i :: 0 <= i < |ts| && RecordedBy(u2p, nodes, ts[i], k)
  {
    if ts != [] {
      var p := ts[..|ts| - 1];
      MissingKeysIff(u2p, nodes, p, k);
      if exists i :: 0 <= i < |ts| && RecordedBy(u2p, nodes, ts[i], k) {
        var i :| 0 <= i < |ts| && RecordedBy(u2p, nodes, ts[i], k);
        if i < |ts| - 1 {
          assert p[i] == ts[i];
        }
      }
      if exists i :: 0 <= i < |p| && RecordedBy(u2p, nodes, p[i], k) {
        var i :| 0 <= i < |p| && RecordedBy(u2p, nodes, p[i], k);
        assert ts[i] == p[i];
      }
    }
  }

  /**
   * A recorded identifier is either unknown to the mapping, with reason `NotInPC` and "NA",
   * or mapped to an identifier that is not a node, with reason `NotInHypergraph` and that identifier.
   */
  lemma MissingReason(u2p: map<Id, Id>, nodes: set<Id>, t: Interaction, k: Id)
    requires RecordedBy(u2p, nodes, t, k)
    ensures EntryFor(u2p, k).reason == NotInPC <==> k !in u2p
    ensures EntryFor(u2p, k).reason == NotInPC ==> EntryFor(u2p, k).pcId == NA
    ensures EntryFor(u2p, k).reason == NotInHypergraph ==>
              k in u2p && EntryFor(u2p, k).pcId == u2p[k] && u2p[k] !in nodes
  {
  }

  /** No kept interaction has an endpoint recorded as missing by the same input interaction. */
  lemma AdmittedNotRecorded(u2p: map<Id, Id>, nodes: set<Id>, t: Interaction, k: Id)
    requires Admissible(u2p, nodes, t)
    ensures !RecordedBy(u2p, nodes, t, k)
  {
  }
}
