/**
 * The driver `main` (lines 16-155): builds the membership map, reads the pathway sets, then
 * scores every interaction file whose output does not exist yet, threading the relaxation
 * cache `processed_nodes` from one file to the next.
 */
module Channels {
  import opened Common
  import Membership
  import opened Admission
  import opened Pathways
  import opened PathwayInteractions
  import opened BRelax
  import opened Rows

  /** The interaction file of one STRING channel, already parsed into interactions. */
  datatype ChannelFile = ChannelFile(name: Id, outputExists: bool, interactions: seq<Interaction>)

  /** What is written for one channel: the rows of the positive-sets file and the mismapped ids. */
  datatype ChannelOutput = ChannelOutput(name: Id, rows: seq<Row>, missing: map<Id, MissingEntry>)

  /** What a run yields: the pathway sets, their union and one output per scored channel. */
  datatype RunOutput = RunOutput(pathways: map<Id, set<Id>>, allNodes: set<Id>, outputs: seq<ChannelOutput>)

  /** The least distance from the relaxation of `n1`'s membership set to a membership node of `n2`. */
  ghost predicate IsLeastDistance(d: int, n1: Id, n2: Id, membership: map<Id, set<Id>>, relax: set<Id> -> Distances<Id>)
    requires n1 in membership && n2 in membership && membership[n2] <= relax(membership[n1]).Keys
  {
    var dist := relax(membership[n1]);
    0 <= d < LargeVal &&
    (exists n :: n in membership[n2] && dist[n] == Some(d)) &&
    (forall n :: n in membership[n2] && dist[n].Some? ==> d <= dist[n].value)
  }

  /** Some membership node of `n2` is at a distance below the sentinel from `n1`'s membership set. */
  ghost predicate BConnected(n1: Id, n2: Id, membership: map<Id, set<Id>>, relax: set<Id> -> Distances<Id>)
    requires n1 in membership && n2 in membership && membership[n2] <= relax(membership[n1]).Keys
  {
    exists n :: n in membership[n2] && Reaches(relax(membership[n1]), n)
  }

  /**
   * The row of an admitted interaction, stated against the pathway sets and the relaxation
   * itself: AnyPathway when both ends are pathway nodes, SamePathway when moreover one pathway
   * holds both, Bipartite when moreover some membership node of the second end is reached
   * from the first end's membership set, with the least such distance.
   */
  ghost predicate Scored(row: Row, t: Interaction, pn: map<Id, set<Id>>, all: set<Id>,
                         membership: map<Id, set<Id>>, relax: set<Id> -> Distances<Id>)
  {
    t.n1 in membership && t.n2 in membership && membership[t.n2] <= relax(membership[t.n1]).Keys &&
    row.n1 == t.n1 && row.n2 == t.n2 && row.score == t.score &&
    (row.anyPathway == 0 || row.anyPathway == 1) &&
    (row.samePathway == 0 || row.samePathway == 1) &&
    (row.bipartite == 0 || row.bipartite == 1) &&
    (row.anyPathway == 1 <==> t.n1 in all && t.n2 in all) &&
    (row.samePathway == 1 <==> row.anyPathway == 1 && SharePathway(pn, t.n1, t.n2)) &&
    (row.bipartite == 1 <==> row.anyPathway == 1 && BConnected(t.n1, t.n2, membership, relax)) &&
    (row.bipartite == 1 ==> IsLeastDistance(row.brelaxDist, t.n1, t.n2, membership, relax)) &&
    (row.bipartite == 0 ==> row.brelaxDist == -1)
  }

  /** The output of one channel: its rows score the admitted interactions in order, and `missing` records the rejected ids. */
  ghost predicate FileScored(out: ChannelOutput, f: ChannelFile, u2p: map<Id, Id>, nodes: set<Id>,
                             pn: map<Id, set<Id>>, all: set<Id>, membership: map<Id, set<Id>>, relax: set<Id> -> Distances<Id>)
  {
    var kept := Kept(u2p, nodes, f.interactions);
    out.name == f.name &&
    |out.rows| == |kept| &&
    (forall i :: 0 <= i < |kept| ==> Scored(out.rows[i], kept[i], pn, all, membership, relax)) &&
    out.missing.Keys == MissingKeys(u2p, nodes, f.interactions) &&
    (forall k :: k in out.missing ==> out.missing[k] == EntryFor(u2p, k))
  }

  /** Every kept interaction joins two nodes. */
  lemma KeptEndpoints(u2p: map<Id, Id>, nodes: set<Id>, ts: seq<Interaction>, i: int)
    requires 0 <= i < |Kept(u2p, nodes, ts)|
    ensures Kept(u2p, nodes, ts)[i].n1 in nodes && Kept(u2p, nodes, ts)[i].n2 in nodes
  {
    KeptIff(u2p, nodes, ts, Kept(u2p, nodes, ts)[i]);
  }

  /** The components' contracts, combined for one row, give the row's meaning. */
  lemma RowScored(row: Row, kept: seq<Interaction>, i: int, inPathways: set<Pair>, inSamePathway: set<Pair>,
                  nodeBrelax: map<Id, Distances<Id>>, bconn: map<Pair, nat>,
                  pn: map<Id, set<Id>>, all: set<Id>, membership: map<Id, set<Id>>, hnodes: set<Id>,
                  relax: set<Id> -> Distances<Id>)
    requires 0 <= i < |kept|
    requires kept[i].n1 in membership && kept[i].n2 in membership
    requires forall k :: k in membership ==> membership[k] <= hnodes
    requires hnodes <= relax(membership[kept[i].n1]).Keys
    requires Encodes(row, kept[i], inPathways, inSamePathway, bconn)
    requires forall p :: p in inPathways <==> PairListed(kept, p) && p.0 in all && p.1 in all
    requires forall p :: p in inSamePathway <==> p in inPathways && SharePathway(pn, p.0, p.1)
    requires forall p :: p in inPathways ==> p.0 in membership && p.1 in membership
    requires forall p :: p in inPathways ==> p.0 in nodeBrelax && nodeBrelax[p.0] == relax(membership[p.0])
    requires forall p :: p in inPathways ==> membership[p.1] <= nodeBrelax[p.0].Keys
    requires bconn.Keys <= inPathways
    requires forall p :: p in inPathways ==> (p in bconn <==> exists n :: n in membership[p.1] && Reaches(nodeBrelax[p.0], n))
    requires forall p, n :: p in bconn && n in membership[p.1] && nodeBrelax[p.0][n].Some? ==> bconn[p] <= nodeBrelax[p.0][n].value
    requires forall p :: p in bconn ==> bconn[p] < LargeVal && exists n :: n in membership[p.1] && nodeBrelax[p.0][n] == Some(bconn[p])
    ensures Scored(row, kept[i], pn, all, membership, relax)
  {
    var t := kept[i];
    var p := PairOf(t);
    assert PairListed(kept, p);
    assert membership[t.n2] <= hnodes;
    if p in bconn {
      assert IsLeastDistance(row.brelaxDist, t.n1, t.n2, membership, relax);
    }
  }

  /**
   * The body of the per-file loop (lines 72-151) after parsing: admission, pathway
   * classification, cached relaxation, distance reduction and row encoding. The cache is
   * threaded through; when every cached entry is the relaxation of its node's membership set
   * the rows are determined by the relaxation alone, and the new cache keeps that property.
   */
  method ScoreFile(f: ChannelFile, u2p: map<Id, Id>, nodes: set<Id>, membership: map<Id, set<Id>>, hnodes: set<Id>,
                   pn: map<Id, set<Id>>, all: set<Id>, relax: set<Id> -> Distances<Id>, processed: map<Id, Distances<Id>>)
    returns (out: ChannelOutput, processed': map<Id, Distances<Id>>)
    requires nodes <= membership.Keys
    requires forall k :: k in membership ==> membership[k] <= hnodes
    requires forall s :: hnodes <= relax(s).Keys
    requires Coherent(processed, membership, relax)
    ensures FileScored(out, f, u2p, nodes, pn, all, membership, relax)
    ensures Coherent(processed', membership, relax)
    ensures processed.Keys <= processed'.Keys
    ensures forall n :: n in processed ==> processed'[n] == processed[n]
  {
    var kept, missing, mismapped, notInReactome := AdmitInteractions(f.interactions, u2p, nodes);
    var inPathways, inSamePathway := GetPathwayInteractions(kept, pn, all);
    forall p | p in inPathways
      ensures p.0 in membership && p.1 in membership
    {
      var k :| 0 <= k < |kept| && PairOf(kept[k]) == p;
      KeptEndpoints(u2p, nodes, f.interactions, k);
    }
    var nodeBrelax;
    nodeBrelax, processed' := PreprocessBRelax(inPathways, membership, relax, processed);
    CacheStaysCoherent(membership, relax, processed, nodeBrelax, processed');
    forall p | p in inPathways
      ensures p.0 in nodeBrelax && nodeBrelax[p.0] == relax(membership[p.0])
    {
      assert p.0 in FirstEndpoints(inPathways);
    }
    var bconn := GetBConnInteractions(nodeBrelax, inPathways, membership);
    var rows := EncodeRows(kept, inPathways, inSamePathway, bconn);
    forall i | 0 <= i < |kept|
      ensures Scored(rows[i], kept[i], pn, all, membership, relax)
    {
      KeptEndpoints(u2p, nodes, f.interactions, i);
      RowScored(rows[i], kept, i, inPathways, inSamePathway, nodeBrelax, bconn, pn, all, membership, hnodes, relax);
    }
    out := ChannelOutput(f.name, rows, missing);
  }

  /** The channel files `main` scores: those whose output file does not exist yet (lines 68-70). */
  function Pending(fs: seq<ChannelFile>): (r: seq<ChannelFile>)
    ensures |r| <= |fs|
    ensures forall j :: 0 <= j < |r| ==> !r[j].outputExists
  {
    if fs == [] then []
    else Pending(fs[..|fs| - 1]) + (if fs[|fs| - 1].outputExists then [] else [fs[|fs| - 1]])
  }

  /** A channel is scored exactly when it is listed and its output does not exist yet. */
  lemma {:induction false} PendingIff(fs: seq<ChannelFile>, f: ChannelFile)
    ensures f in Pending(fs) <==> f in fs && !f.outputExists
  {
    if fs != [] {
      var p := fs[..|fs| - 1];
      PendingIff(p, f);
      assert fs == p + [fs[|fs| - 1]];
    }
  }

  /**
   * The per-file loop of lines 62-153: every channel whose output does not exist yet is scored,
   * in order, with the cache of one file passed on to the next.
   */
  method ScoreAll(channels: seq<ChannelFile>, u2p: map<Id, Id>, nodes: set<Id>, membership: map<Id, set<Id>>,
                  hnodes: set<Id>, pn: map<Id, set<Id>>, all: set<Id>, relax: set<Id> -> Distances<Id>)
    returns (outputs: seq<ChannelOutput>)
    requires nodes <= membership.Keys
    requires forall k :: k in membership ==> membership[k] <= hnodes
    requires forall s :: hnodes <= relax(s).Keys
    ensures |outputs| == |Pending(channels)|
    ensures forall j :: 0 <= j < |outputs| ==>
              FileScored(outputs[j], Pending(channels)[j], u2p, nodes, pn, all, membership, relax)
  {
    var processed: map<Id, Distances<Id>> := map[];
    outputs := [];
    for k := 0 to |channels|
      invariant Coherent(processed, membership, relax)
      invariant |outputs| == |Pending(channels[..k])|
      invariant forall j :: 0 <= j < |outputs| ==>
                  FileScored(outputs[j], Pending(channels[..k])[j], u2p, nodes, pn, all, membership, relax)
    {
      assert channels[..k + 1][..k] == channels[..k];
      var f := channels[k];
      if !f.outputExists {
        var out;
        out, processed := ScoreFile(f, u2p, nodes, membership, hnodes, pn, all, relax, processed);
        outputs := outputs + [out];
      }
    }
    assert channels[..|channels|] == channels;
  }

  /**
   * `main` (lines 16-155) over hypergraph `H`, visited in `order`, with the identifier mapping,
   * the pathway files and the channel files. The membership map is the corrected one. A
   * pathway error ends the run; otherwise every pending channel is scored in order.
   */
  method Run(H: Membership.Hypergraph<Id>, order: seq<Id>, u2p: map<Id, Id>, pathwayFiles: seq<PathwayFile>,
             runAll: bool, channels: seq<ChannelFile>, relax: set<Id> -> Distances<Id>)
    returns (r: Result<RunOutput, PathwayError>)
    requires Membership.Enumerates(order, H)
    requires forall s :: H.Keys <= relax(s).Keys
    ensures PathwaysOutcome(pathwayFiles, runAll,
                            if r.Ok? then Ok((r.value.pathways, r.value.allNodes)) else Err(r.error))
    ensures r.Ok? ==>
              var out := r.value;
              |out.outputs| == |Pending(channels)| &&
              forall j :: 0 <= j < |out.outputs| ==>
                FileScored(out.outputs[j], Pending(channels)[j], u2p, Membership.Universe(H), out.pathways, out.allNodes,
                           Membership.CorrectedMembership(H), relax)
  {
    var nodes, membership := Membership.BuildMembershipCorrected(H, order);
    Membership.IsCorrectedMembership(H, membership);
    forall k | k in membership
      ensures membership[k] <= H.Keys
    {
      Membership.EntryMeaning(H, order, k);
    }
    var pathways := GetPathways(pathwayFiles, runAll);
    if pathways.Err? {
      return Err(pathways.error);
    }
    var (pn, all) := pathways.value;
    var outputs := ScoreAll(channels, u2p, nodes, membership, H.Keys, pn, all, relax);
    r := Ok(RunOutput(pn, all, outputs));
  }
}
