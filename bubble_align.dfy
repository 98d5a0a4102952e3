/**
 * The candidate-pair and alignment bookkeeping of the bubble aligner
 * (phase_hic in test_bubble_align): overlap candidates become ordered,
 * deduplicated pairs; each pair's minimap2 hits are tallied into alignment
 * blocks from their CIGAR words; pairs that are too dissimilar in size or
 * in matches are dropped; the rest become weighted edges of the alignment
 * graph.
 *
 * minimap2 itself is an input: for each pair, its hits (id, parent,
 * coordinates, strand and CIGAR words) and the chain's approximate number
 * of non-overlapping matches. The overlap finder is an input too: the
 * sequence of name pairs it reports.
 */
module BubbleAlign {
  import opened ContactGraphs
  import opened IdMaps
  import opened Wrappers

  /** A pair to align: the target (the longer sequence) and the query. */
  datatype NamePair = NamePair(target: string, query: string)

  /**
   * The orientation phase_hic gives a candidate (a, b): a first when its
   * sequence is strictly longer, otherwise b first.
   */
  function Orient(a: string, b: string, lengths: map<string, nat>): NamePair
    requires a in lengths && b in lengths
  {
    if lengths[a] > lengths[b] then NamePair(a, b) else NamePair(b, a)
  }

  /** A queued pair is the candidate in one of its two orientations, the longer sequence first, strictly so when the lengths differ. */
  lemma OrientLongerFirst(a: string, b: string, lengths: map<string, nat>)
    requires a in lengths && b in lengths
    ensures var p := Orient(a, b, lengths);
            && (p == NamePair(a, b) || p == NamePair(b, a))
            && lengths[p.target] >= lengths[p.query]
            && (lengths[a] != lengths[b] ==> lengths[p.target] > lengths[p.query])
  {
  }

  /** For sequences of different lengths both orientations of a candidate queue the same pair; for equal lengths they queue two. */
  lemma OrientCollapses(a: string, b: string, lengths: map<string, nat>)
    requires a in lengths && b in lengths && a != b
    ensures Orient(a, b, lengths) == Orient(b, a, lengths) <==> lengths[a] != lengths[b]
  {
  }

  /** The pairs queued after the candidates `reported`, in the order the overlap finder reports them. */
  function Queued(reported: seq<(string, string)>, lengths: map<string, nat>): set<NamePair>
    requires forall k | 0 <= k < |reported| :: reported[k].0 in lengths && reported[k].1 in lengths
  {
    if reported == [] then {}
    else
      var s := Queued(reported[..|reported| - 1], lengths);
      var (a, b) := reported[|reported| - 1];
      if a == b then s else s + {Orient(a, b, lengths)}
  }

  /** A pair is queued exactly when some candidate of two different names orients to it. */
  lemma {:induction false} QueuedMembers(reported: seq<(string, string)>, lengths: map<string, nat>, p: NamePair)
    requires forall k | 0 <= k < |reported| :: reported[k].0 in lengths && reported[k].1 in lengths
    ensures p in Queued(reported, lengths) <==>
            exists k | 0 <= k < |reported| :: reported[k].0 != reported[k].1 && Orient(reported[k].0, reported[k].1, lengths) == p
  {
    if reported != [] {
      var init := reported[..|reported| - 1];
      QueuedMembers(init, lengths, p);
      if p in Queued(init, lengths) {
        var k :| 0 <= k < |init| && init[k].0 != init[k].1 && Orient(init[k].0, init[k].1, lengths) == p;
        assert reported[k] == init[k];
      }
      if exists k | 0 <= k < |reported| :: reported[k].0 != reported[k].1 && Orient(reported[k].0, reported[k].1, lengths) == p {
        var k :| 0 <= k < |reported| && reported[k].0 != reported[k].1 && Orient(reported[k].0, reported[k].1, lengths) == p;
        if k < |init| {
          assert init[k] == reported[k];
        }
      }
    }
  }

  /** A candidate whose two names are equal is never queued, so no queued pair names one sequence twice. */
  lemma {:induction false} QueuedNoSelfPairs(reported: seq<(string, string)>, lengths: map<string, nat>)
    requires forall k | 0 <= k < |reported| :: reported[k].0 in lengths && reported[k].1 in lengths
    ensures forall p | p in Queued(reported, lengths) :: p.target != p.query
  {
    forall p | p in Queued(reported, lengths)
      ensures p.target != p.query
    {
      QueuedMembers(reported, lengths, p);
    }
  }

  /**
   * The candidate loop of phase_hic and the copy of the pair set into
   * to_be_aligned: each distinct oriented pair once, in the set's
   * iteration order.
   */
  method PreparePairs(reported: seq<(string, string)>, lengths: map<string, nat>) returns (toBeAligned: seq<NamePair>)
    requires forall k | 0 <= k < |reported| :: reported[k].0 in lengths && reported[k].1 in lengths
    ensures |toBeAligned| == |Queued(reported, lengths)|
    ensures forall p :: p in toBeAligned <==> p in Queued(reported, lengths)
    ensures Distinct(toBeAligned)
  {
    var orderedPairs: set<NamePair> := {};
    var k := 0;
    while k < |reported|
      invariant 0 <= k <= |reported|
      invariant orderedPairs == Queued(reported[..k], lengths)
    {
      assert reported[..k + 1][..k] == reported[..k];
      var (a, b) := reported[k];
      if a != b {
        var orderedPair := Orient(a, b, lengths);
        if orderedPair !in orderedPairs {
          orderedPairs := orderedPairs + {orderedPair};
        }
      }
      k := k + 1;
    }
    assert reported[..k] == reported;
    toBeAligned := CopyPairs(orderedPairs);
  }

  /** to_be_aligned sized to the set, then filled in the set's iteration order. */
  method CopyPairs(orderedPairs: set<NamePair>) returns (toBeAligned: seq<NamePair>)
    ensures |toBeAligned| == |orderedPairs|
    ensures forall p :: p in toBeAligned <==> p in orderedPairs
    ensures Distinct(toBeAligned)
  {
    toBeAligned := seq(|orderedPairs|, _ => NamePair("", ""));
    var remaining := orderedPairs;
    var i := 0;
    while remaining != {}
      invariant |toBeAligned| == |orderedPairs| && i + |remaining| == |orderedPairs|
      invariant remaining <= orderedPairs
      invariant forall p :: p in toBeAligned[..i] <==> p in orderedPairs && p !in remaining
      invariant Distinct(toBeAligned[..i])
      decreases |remaining|
    {
      var item :| item in remaining;
      assert item !in toBeAligned[..i];
      ghost var placed := toBeAligned[..i];
      toBeAligned := toBeAligned[i := item];
      assert toBeAligned[..i + 1] == placed + [item];
      remaining := remaining - {item};
      i := i + 1;
    }
    assert toBeAligned[..i] == toBeAligned;
  }

  /** minimap2's table of CIGAR operations, indexed by the low four bits of a CIGAR word. */
  const CigarOps: string := "MIDNSHP=XB"

  /** An unsigned 32-bit CIGAR word. */
  type CigarWord = w: nat | w < 0x1_0000_0000

  /** The length of a packed CIGAR word, its upper 28 bits (`w >> 4`). */
  function CigarLength(w: CigarWord): (n: nat)
    ensures n < 0x1000_0000
  {
    w / 16
  }

  /** The operation of a packed CIGAR word (`w & 0xf` indexes the table); a code past the end of the table names none. */
  function CigarOp(w: CigarWord): (op: Option<char>)
    ensures op.Some? <==> w % 16 < |CigarOps|
    ensures op.Some? ==> op.value in CigarOps
  {
    var code := w % 16;
    if code < |CigarOps| then Some(CigarOps[code]) else None
  }

  /** Decoding recovers the length and operation a word was packed from (`len << 4 | code`). */
  lemma CigarRoundTrip(len: nat, code: nat)
    requires len < 0x1000_0000 && code < |CigarOps|
    ensures len * 16 + code < 0x1_0000_0000
    ensures CigarLength(len * 16 + code) == len && CigarOp(len * 16 + code) == Some(CigarOps[code])
  {
  }

  /** The summed lengths of the words of `cigar` whose operation is `op`. */
  function OpTotal(cigar: seq<CigarWord>, op: char): nat
  {
    if cigar == [] then 0
    else
      var w := cigar[|cigar| - 1];
      OpTotal(cigar[..|cigar| - 1], op) + if CigarOp(w) == Some(op) then CigarLength(w) else 0
  }

  /** The summed lengths of all the words of `cigar`. */
  function TotalLength(cigar: seq<CigarWord>): nat
  {
    if cigar == [] then 0 else TotalLength(cigar[..|cigar| - 1]) + CigarLength(cigar[|cigar| - 1])
  }

  /** The tally of a concatenation is the sum of the tallies. */
  lemma {:induction false} OpTotalAppend(a: seq<CigarWord>, b: seq<CigarWord>, op: char)
    ensures OpTotal(a + b, op) == OpTotal(a, op) + OpTotal(b, op)
    decreases |b|
  {
    if b == [] {
      assert a + b == a;
    } else {
      OpTotalAppend(a, b[..|b| - 1], op);
      assert (a + b)[..|a + b| - 1] == a + b[..|b| - 1];
      assert (a + b)[|a + b| - 1] == b[|b| - 1];
    }
  }

  /** The four counters never exceed the aligned length; they reach it when every operation is '=', 'X', 'I' or 'D'. */
  lemma {:induction false} TallyBounded(cigar: seq<CigarWord>)
    ensures OpTotal(cigar, '=') + OpTotal(cigar, 'X') + OpTotal(cigar, 'I') + OpTotal(cigar, 'D') <= TotalLength(cigar)
    ensures (forall k | 0 <= k < |cigar| :: CigarOp(cigar[k]) in {Some('='), Some('X'), Some('I'), Some('D')}) ==>
            OpTotal(cigar, '=') + OpTotal(cigar, 'X') + OpTotal(cigar, 'I') + OpTotal(cigar, 'D') == TotalLength(cigar)
  {
    if cigar != [] {
      TallyBounded(cigar[..|cigar| - 1]);
    }
  }

  /** An alignment block: reference and query intervals, the CIGAR counters and the strand. */
  datatype AlignmentBlock = AlignmentBlock(
    refStart: int, refStop: int, queryStart: int, queryStop: int,
    nMatches: nat, nMismatches: nat, nInserts: nat, nDeletes: nat,
    reversal: bool)

  /** The block with the CIGAR counters of `cigar` added. */
  function Tallied(block: AlignmentBlock, cigar: seq<CigarWord>): AlignmentBlock
  {
    block.(nMatches := block.nMatches + OpTotal(cigar, '='),
           nMismatches := block.nMismatches + OpTotal(cigar, 'X'),
           nInserts := block.nInserts + OpTotal(cigar, 'I'),
           nDeletes := block.nDeletes + OpTotal(cigar, 'D'))
  }

  /** The CIGAR loop of map_sequences: each word adds its length to the counter of its operation, if any. */
  method TallyCigar(block: AlignmentBlock, cigar: seq<CigarWord>) returns (b: AlignmentBlock)
    ensures b == Tallied(block, cigar)
  {
    b := block;
    var k := 0;
    while k < |cigar|
      invariant 0 <= k <= |cigar|
      invariant b == Tallied(block, cigar[..k])
    {
      assert cigar[..k + 1][..k] == cigar[..k];
      var length := CigarLength(cigar[k]);
      var operation := CigarOp(cigar[k]);
      if operation == Some('=') {
        b := b.(nMatches := b.nMatches + length);
      } else if operation == Some('X') {
        b := b.(nMismatches := b.nMismatches + length);
      } else if operation == Some('I') {
        b := b.(nInserts := b.nInserts + length);
      } else if operation == Some('D') {
        b := b.(nDeletes := b.nDeletes + length);
      }
      k := k + 1;
    }
    assert cigar[..k] == cigar;
  }

  /** One minimap2 hit: its id and parent, its reference and query intervals, its strand and its CIGAR words. */
  datatype Hit = Hit(id: int, parent: int, refStart: int, refStop: int, queryStart: int, queryStop: int,
                     rev: bool, cigar: seq<CigarWord>)

  /** The block a primary hit contributes: its intervals and strand, and the counters of its CIGAR. */
  function BlockOf(h: Hit): AlignmentBlock
  {
    Tallied(AlignmentBlock(h.refStart, h.refStop, h.queryStart, h.queryStop, 0, 0, 0, 0, h.rev), h.cigar)
  }

  /** The chain map_sequences builds: one block per hit whose id is its parent, in hit order. */
  function ChainOf(hits: seq<Hit>): seq<AlignmentBlock>
  {
    if hits == [] then []
    else
      var h := hits[|hits| - 1];
      ChainOf(hits[..|hits| - 1]) + if h.id == h.parent then [BlockOf(h)] else []
  }

  /** Every block of the chain comes from a primary hit, and the chain is empty exactly when no hit is primary. */
  lemma {:induction false} ChainFromPrimaryHits(hits: seq<Hit>)
    ensures forall b | b in ChainOf(hits) :: exists k | 0 <= k < |hits| :: hits[k].id == hits[k].parent && b == BlockOf(hits[k])
    ensures ChainOf(hits) == [] <==> forall k | 0 <= k < |hits| :: hits[k].id != hits[k].parent
    ensures |ChainOf(hits)| <= |hits|
  {
    if hits != [] {
      var init := hits[..|hits| - 1];
      ChainFromPrimaryHits(init);
      forall b | b in ChainOf(hits)
        ensures exists k | 0 <= k < |hits| :: hits[k].id == hits[k].parent && b == BlockOf(hits[k])
      {
        if b in ChainOf(init) {
          var k :| 0 <= k < |init| && init[k].id == init[k].parent && b == BlockOf(init[k]);
          assert hits[k] == init[k];
        } else {
          assert b == BlockOf(hits[|hits| - 1]);
        }
      }
      if ChainOf(hits) == [] {
        forall k | 0 <= k < |hits|
          ensures hits[k].id != hits[k].parent
        {
          if k < |init| {
            assert hits[k] == init[k];
          }
        }
      }
    }
  }

  /** The hit loop of map_sequences: a block per primary hit, its counters tallied from the CIGAR. */
  method BuildChain(hits: seq<Hit>) returns (chain: seq<AlignmentBlock>)
    ensures chain == ChainOf(hits)
  {
    chain := [];
    var j := 0;
    while j < |hits|
      invariant 0 <= j <= |hits|
      invariant chain == ChainOf(hits[..j])
    {
      assert hits[..j + 1][..j] == hits[..j];
      var r2 := hits[j];
      if r2.id == r2.parent {
        var block := AlignmentBlock(r2.refStart, r2.refStop, r2.queryStart, r2.queryStop, 0, 0, 0, 0, r2.rev);
        block := TallyCigar(block, r2.cigar);
        chain := chain + [block];
      }
      j := j + 1;
    }
    assert hits[..j] == hits;
  }

  /** min_similarity as the fraction num / den. */
  datatype Fraction = Fraction(num: nat, den: nat)
  {
    predicate Valid()
    {
      den > 0
    }
  }

  /**
   * `double(x) / double(y) < f`: for y > 0 the same as x * den < num * y;
   * for y == 0 the quotient is infinite or NaN and the comparison is false.
   */
  predicate RatioBelow(x: nat, y: nat, f: Fraction)
  {
    y > 0 && x * f.den < f.num * y
  }

  /** The cross-multiplied comparison is the comparison of the two fractions. */
  lemma RatioBelowIsFraction(x: nat, y: nat, f: Fraction)
    requires f.Valid() && y > 0
    ensures RatioBelow(x, y, f) <==> (x as real) / (y as real) < (f.num as real) / (f.den as real)
  {
    var q, m := (x as real) / (y as real), (f.num as real) / (f.den as real);
    assert q * (y as real) == x as real;
    assert m * (f.den as real) == f.num as real;
    assert (x * f.den) as real == q * (y as real) * (f.den as real);
    assert (f.num * y) as real == m * (f.den as real) * (y as real);
  }

  /** The edge weight: the approximate matches, clipped to the length of the longer sequence. */
  function TotalMatches(lengthA: nat, approx: nat): (w: nat)
    ensures w <= lengthA && w <= approx && (w == lengthA || w == approx)
  {
    if approx < lengthA then approx else lengthA
  }

  /** What minimap2 gives for one pair: its hits, and the approximate non-overlapping matches of the resulting chain. */
  datatype PairAlignment = PairAlignment(hits: seq<Hit>, approxMatches: nat)

  /** The graph update of map_sequences for an aligned pair: both nodes, coverage 0, the edge, both lengths. */
  function AddAlignment(g: Graph, idA: int, idB: int, lengthA: nat, lengthB: nat, w: nat): Graph
  {
    var g1 := g.InsertNode(idA, 0).InsertNode(idB, 0);
    var g2 := g1.SetCoverage(idA, 0).SetCoverage(idB, 0).InsertEdge(idA, idB, w);
    g2.SetLength(idA, lengthA).SetLength(idB, lengthB)
  }

  /** One job of map_sequences on the graph: the size filter, the empty-chain check, the match filter, then the update. */
  function AlignJob(g: Graph, job: NamePair, al: PairAlignment, lengths: map<string, nat>, ids: map<string, int>, f: Fraction): Graph
    requires job.target in lengths && job.query in lengths && job.target in ids && job.query in ids
  {
    var lengthA, lengthB := lengths[job.target], lengths[job.query];
    if RatioBelow(lengthB, lengthA, f) then g
    else if ChainOf(al.hits) == [] then g
    else
      var total := TotalMatches(lengthA, al.approxMatches);
      if RatioBelow(total, lengthA, f) then g
      else AddAlignment(g, ids[job.target], ids[job.query], lengthA, lengthB, total)
  }

  /** A job adds an edge only when both filters pass and some hit is primary; its weight is the clipped match count. */
  lemma AlignJobFilters(g: Graph, job: NamePair, al: PairAlignment, lengths: map<string, nat>, ids: map<string, int>, f: Fraction)
    requires job.target in lengths && job.query in lengths && job.target in ids && job.query in ids
    ensures var e := Key(ids[job.target], ids[job.query]);
            var g' := AlignJob(g, job, al, lengths, ids, f);
            e !in g.weights && e in g'.weights ==>
              && !RatioBelow(lengths[job.query], lengths[job.target], f)
              && (exists k | 0 <= k < |al.hits| :: al.hits[k].id == al.hits[k].parent)
              && !RatioBelow(g'.weights[e], lengths[job.target], f)
              && g'.weights[e] == TotalMatches(lengths[job.target], al.approxMatches)
              && g'.weights[e] <= lengths[job.target]
  {
    ChainFromPrimaryHits(al.hits);
  }

  /** The graph after map_sequences has run the jobs `jobs` in order. */
  function AlignAll(g: Graph, jobs: seq<NamePair>, als: seq<PairAlignment>, lengths: map<string, nat>, ids: map<string, int>, f: Fraction): Graph
    requires |jobs| == |als|
    requires forall k | 0 <= k < |jobs| :: jobs[k].target in lengths && jobs[k].query in lengths && jobs[k].target in ids && jobs[k].query in ids
  {
    if jobs == [] then g
    else
      var n := |jobs| - 1;
      AlignJob(AlignAll(g, jobs[..n], als[..n], lengths, ids, f), jobs[n], als[n], lengths, ids, f)
  }

  function Max(a: int, b: int): int
  {
    if a < b then b else a
  }

  /**
   * The alignment graph as map_sequences leaves it: each node is a sequence
   * with its length, coverage 0 and no alt flag; each edge joins two
   * different sequences and weighs at most the longer one's length.
   */
  ghost predicate AlignmentGraphInv(g: Graph, names: seq<string>, lengths: map<string, nat>)
  {
    && (forall n | n in g.nodes ::
          && 0 <= n < |names| && names[n] in lengths
          && g.nodes[n] == Node(lengths[names[n]], 0, false))
    && (forall e | e in g.weights ::
          && e.lo in g.nodes && e.hi in g.nodes && e.lo != e.hi
          && 0 <= g.weights[e] <= Max(g.nodes[e.lo].length, g.nodes[e.hi].length))
  }

  /** The id map names every id it hands out. */
  ghost predicate IdsNamed(ids: map<string, int>, names: seq<string>)
  {
    forall n | n in ids :: 0 <= ids[n] < |names| && names[ids[n]] == n
  }

  /** A node after the update of an aligned pair: the given length, coverage 0, its alt flag kept. */
  function Updated(g: Graph, n: int, length: nat): Node
  {
    Node(length, 0, n in g.nodes && g.nodes[n].hasAlt)
  }

  /** The update of an aligned pair node by node: the two ends rewritten, every other node kept. */
  lemma AddAlignmentNodes(g: Graph, a: int, b: int, lengthA: nat, lengthB: nat, w: nat)
    requires a != b
    ensures var g' := AddAlignment(g, a, b, lengthA, lengthB, w);
            && (forall n :: n in g'.nodes <==> n in g.nodes || n == a || n == b)
            && g'.nodes[a] == Updated(g, a, lengthA) && g'.nodes[b] == Updated(g, b, lengthB)
            && (forall n | n in g.nodes && n != a && n != b :: g'.nodes[n] == g.nodes[n])
  {
    var g2 := g.InsertNode(a, 0).InsertNode(b, 0);
    var g4 := g2.SetCoverage(a, 0).SetCoverage(b, 0);
    assert g2.nodes[a].hasAlt == (a in g.nodes && g.nodes[a].hasAlt);
    assert g2.nodes[b].hasAlt == (b in g.nodes && g.nodes[b].hasAlt);
    assert g4.nodes[a] == g2.nodes[a].(coverage := 0) && g4.nodes[b] == g2.nodes[b].(coverage := 0);
    assert g4.InsertEdge(a, b, w).nodes == g4.nodes;
  }

  /** The update of an aligned pair inserts the edge if it is absent and changes no other weight. */
  lemma AddAlignmentWeights(g: Graph, a: int, b: int, lengthA: nat, lengthB: nat, w: nat)
    ensures AddAlignment(g, a, b, lengthA, lengthB, w).weights == g.InsertEdge(a, b, w).weights
  {
  }

  /** The node update of an aligned pair keeps the graph's invariant. */
  lemma AddAlignmentKeepsInv(g: Graph, a: int, b: int, lengthA: nat, lengthB: nat, w: nat, names: seq<string>, lengths: map<string, nat>)
    requires AlignmentGraphInv(g, names, lengths)
    requires 0 <= a < |names| && 0 <= b < |names| && a != b
    requires names[a] in lengths && names[b] in lengths && lengths[names[a]] == lengthA && lengths[names[b]] == lengthB
    requires w <= lengthA
    ensures AlignmentGraphInv(AddAlignment(g, a, b, lengthA, lengthB, w), names, lengths)
  {
    AddAlignmentNodes(g, a, b, lengthA, lengthB, w);
    AddAlignmentWeights(g, a, b, lengthA, lengthB, w);
    var g' := AddAlignment(g, a, b, lengthA, lengthB, w);
    assert Updated(g, a, lengthA) == Node(lengthA, 0, false);
    assert Updated(g, b, lengthB) == Node(lengthB, 0, false);
    forall n | n in g'.nodes
      ensures 0 <= n < |names| && names[n] in lengths && g'.nodes[n] == Node(lengths[names[n]], 0, false)
    {
    }
    forall e | e in g'.weights
      ensures e.lo in g'.nodes && e.hi in g'.nodes && e.lo != e.hi
      ensures 0 <= g'.weights[e] <= Max(g'.nodes[e.lo].length, g'.nodes[e.hi].length)
    {
      if e in g.weights {
        assert g'.weights[e] == g.weights[e];
        assert g'.nodes[e.lo].length == g.nodes[e.lo].length && g'.nodes[e.hi].length == g.nodes[e.hi].length;
      } else {
        assert e == Key(a, b) && g'.weights[e] == w;
      }
    }
  }

  /** One job keeps the graph's invariant when its two names differ. */
  lemma AlignJobKeepsInv(g: Graph, job: NamePair, al: PairAlignment, lengths: map<string, nat>, ids: map<string, int>,
                         names: seq<string>, f: Fraction)
    requires job.target in lengths && job.query in lengths && job.target in ids && job.query in ids
    requires job.target != job.query && IdsNamed(ids, names)
    requires AlignmentGraphInv(g, names, lengths)
    ensures AlignmentGraphInv(AlignJob(g, job, al, lengths, ids, f), names, lengths)
  {
    var a, b := ids[job.target], ids[job.query];
    assert names[a] == job.target && names[b] == job.query;
    var lengthA := lengths[job.target];
    AddAlignmentKeepsInv(g, a, b, lengthA, lengths[job.query], TotalMatches(lengthA, al.approxMatches), names, lengths);
  }

  /** map_sequences keeps the invariant over jobs that never pair a name with itself. */
  lemma {:induction false} AlignAllKeepsInv(g: Graph, jobs: seq<NamePair>, als: seq<PairAlignment>, lengths: map<string, nat>,
                                            ids: map<string, int>, names: seq<string>, f: Fraction)
    requires |jobs| == |als|
    requires forall k | 0 <= k < |jobs| :: jobs[k].target in lengths && jobs[k].query in lengths && jobs[k].target in ids && jobs[k].query in ids
    requires forall k | 0 <= k < |jobs| :: jobs[k].target != jobs[k].query
    requires IdsNamed(ids, names) && AlignmentGraphInv(g, names, lengths)
    ensures AlignmentGraphInv(AlignAll(g, jobs, als, lengths, ids, f), names, lengths)
  {
    if jobs != [] {
      var n := |jobs| - 1;
      AlignAllKeepsInv(g, jobs[..n], als[..n], lengths, ids, names, f);
      AlignJobKeepsInv(AlignAll(g, jobs[..n], als[..n], lengths, ids, f), jobs[n], als[n], lengths, ids, names, f);
    }
  }

  /** The body of map_sequences for one claimed job. */
  method AlignPair(job: NamePair, al: PairAlignment, lengths: map<string, nat>, idMap: IncrementalIdMap, g: ContactGraph, f: Fraction)
    requires job.target in lengths && job.query in lengths && job.target in idMap.ids && job.query in idMap.ids
    requires g.Valid() && idMap.Valid()
    modifies g
    ensures g.Valid() && g.Model() == AlignJob(old(g.Model()), job, al, lengths, idMap.ids, f)
  {
    var lengthA := lengths[job.target];
    var lengthB := lengths[job.query];
    if RatioBelow(lengthB, lengthA, f) {
      return;
    }
    var chain := BuildChain(al.hits);
    if chain != [] {
      var idA := idMap.GetId(job.target);
      var idB := idMap.GetId(job.query);
      var totalMatches := TotalMatches(lengthA, al.approxMatches);
      if RatioBelow(totalMatches, lengthA, f) {
        return;
      }
      g.TryInsertNode(idA, 0);
      g.TryInsertNode(idB, 0);
      g.SetNodeCoverage(idA, 0);
      g.SetNodeCoverage(idB, 0);
      g.TryInsertEdge(idA, idB, totalMatches);
      g.SetNodeLength(idA, lengthA);
      g.SetNodeLength(idB, lengthB);
    }
  }

  /** map_sequences with its jobs claimed one after another. */
  method MapSequences(toBeAligned: seq<NamePair>, als: seq<PairAlignment>, lengths: map<string, nat>,
                      idMap: IncrementalIdMap, g: ContactGraph, f: Fraction)
    requires |toBeAligned| == |als| && g.Valid() && idMap.Valid()
    requires forall k | 0 <= k < |toBeAligned| :: toBeAligned[k].target in lengths && toBeAligned[k].query in lengths
    requires forall k | 0 <= k < |toBeAligned| :: toBeAligned[k].target in idMap.ids && toBeAligned[k].query in idMap.ids
    modifies g
    ensures g.Valid() && g.Model() == AlignAll(old(g.Model()), toBeAligned, als, lengths, idMap.ids, f)
  {
    var globalIndex := 0;
    while globalIndex < |toBeAligned|
      invariant 0 <= globalIndex <= |toBeAligned|
      invariant g.Valid()
      invariant g.Model() == AlignAll(old(g.Model()), toBeAligned[..globalIndex], als[..globalIndex], lengths, idMap.ids, f)
    {
      var threadIndex := globalIndex;
      globalIndex := globalIndex + 1;
      assert toBeAligned[..globalIndex][..threadIndex] == toBeAligned[..threadIndex];
      assert als[..globalIndex][..threadIndex] == als[..threadIndex];
      AlignPair(toBeAligned[threadIndex], als[threadIndex], lengths, idMap, g, f);
    }
    assert toBeAligned[..globalIndex] == toBeAligned && als[..globalIndex] == als;
  }
}
