/**
 * phase_hic of test_bubble_align from the sequences to the two graphs:
 * sequence ids, the queue of oriented pairs, the alignment graph that
 * map_sequences builds, and its reduction to mutual best alignments.
 *
 * The aligner is an input: `aligner` gives minimap2's hits and the
 * approximate match count for every queued pair.
 */
module BubblePipeline {
  import opened ContactGraphs
  import opened IdMaps
  import opened BubbleAlign
  import opened MutualBest

  /** The aligner's result for each job, in job order. */
  function Alignments(jobs: seq<NamePair>, aligner: map<NamePair, PairAlignment>): (als: seq<PairAlignment>)
    requires forall p | p in jobs :: p in aligner
    ensures |als| == |jobs| && forall k | 0 <= k < |jobs| :: als[k] == aligner[jobs[k]]
  {
    seq(|jobs|, k requires 0 <= k < |jobs| => aligner[jobs[k]])
  }

  /** Every sequence of an alignment graph takes part in at most four confirmed alignments after the reduction. */
  lemma AlignedPartners(aligned: Graph, names: seq<string>, lengths: map<string, nat>)
    requires aligned.Valid() && AlignmentGraphInv(aligned, names, lengths)
    ensures forall n | n in aligned.nodes :: CountIn(Reduce(aligned, Graph(map[], map[], [])).1.order, n) <= 4
  {
    assert NoSelfLoops(aligned);
    forall n | n in aligned.nodes
      ensures CountIn(Reduce(aligned, Graph(map[], map[], [])).1.order, n) <= 4
    {
      AtMostFourPartners(aligned, n);
    }
  }

  /** The names of a queued pair are names of a candidate. */
  lemma QueuedNames(reported: seq<(string, string)>, lengths: map<string, nat>, names: seq<string>)
    requires forall k | 0 <= k < |reported| :: reported[k].0 in lengths && reported[k].1 in lengths
    requires forall k | 0 <= k < |reported| :: reported[k].0 in names && reported[k].1 in names
    ensures forall p | p in Queued(reported, lengths) :: p.target in names && p.query in names && p.target != p.query
  {
    QueuedNoSelfPairs(reported, lengths);
    forall p | p in Queued(reported, lengths)
      ensures p.target in names && p.query in names
    {
      QueuedMembers(reported, lengths, p);
    }
  }

  /** The alignment graph map_sequences builds from an empty graph over the queued jobs. */
  method BuildAlignmentGraph(toBeAligned: seq<NamePair>, als: seq<PairAlignment>, lengths: map<string, nat>,
                             idMap: IncrementalIdMap, f: Fraction)
    returns (g: ContactGraph)
    requires |toBeAligned| == |als| && idMap.Valid()
    requires forall p | p in toBeAligned :: p.target in lengths && p.query in lengths && p.target != p.query
    requires forall p | p in toBeAligned :: p.target in idMap.ids && p.query in idMap.ids
    ensures fresh(g) && g.Valid()
    ensures g.Model() == AlignAll(Graph(map[], map[], []), toBeAligned, als, lengths, idMap.ids, f)
    ensures AlignmentGraphInv(g.Model(), idMap.names, lengths)
  {
    g := new ContactGraph();
    ghost var empty := g.Model();
    MapSequences(toBeAligned, als, lengths, idMap, g, f);
    AlignAllKeepsInv(empty, toBeAligned, als, lengths, idMap.ids, idMap.names, f);
  }

  /**
   * phase_hic up to the output files: every distinct oriented pair is
   * aligned once into the alignment graph, which is then reduced; every
   * sequence ends in at most four symmetrical alignments.
   */
  method AlignBubbles(sequenceNames: seq<string>, lengths: map<string, nat>, reported: seq<(string, string)>,
                      aligner: map<NamePair, PairAlignment>, f: Fraction)
    returns (idMap: IncrementalIdMap, toBeAligned: seq<NamePair>, alignmentGraph: ContactGraph, symmetrical: ContactGraph)
    requires forall n | n in sequenceNames :: n in lengths
    requires forall k | 0 <= k < |reported| :: reported[k].0 in sequenceNames && reported[k].1 in sequenceNames
    requires forall p | p in Queued(reported, lengths) :: p in aligner
    ensures idMap.Valid() && idMap.names == InsertAll([], sequenceNames)
    ensures Distinct(toBeAligned) && forall p :: p in toBeAligned <==> p in Queued(reported, lengths)
    ensures forall p | p in toBeAligned :: p.target in idMap.ids && p.query in idMap.ids && p.target in lengths && p.query in lengths
    ensures var aligned := AlignAll(Graph(map[], map[], []), toBeAligned, Alignments(toBeAligned, aligner), lengths, idMap.ids, f);
            && aligned.Valid() && AlignmentGraphInv(aligned, idMap.names, lengths)
            && (alignmentGraph.Model(), symmetrical.Model()) == Reduce(aligned, Graph(map[], map[], []))
            && forall n | n in aligned.nodes :: CountIn(symmetrical.order, n) <= 4
  {
    idMap := LoadSequenceNames(sequenceNames);
    toBeAligned := PreparePairs(reported, lengths);
    QueuedNames(reported, lengths, sequenceNames);
    assert forall n | n in sequenceNames :: n in idMap.ids;
    var als := Alignments(toBeAligned, aligner);
    alignmentGraph := BuildAlignmentGraph(toBeAligned, als, lengths, idMap, f);
    ghost var aligned := alignmentGraph.Model();
    ghost var passes;
    symmetrical, passes := ReduceToMutualBest(alignmentGraph);
    AlignedPartners(aligned, idMap.names, lengths);
  }
}
