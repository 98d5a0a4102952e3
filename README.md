# GFAse phasing drivers in Dafny

This project models the core of two driver programs of GFAse, a phasing tool
for diploid assembly graphs.

- **Bubble aligner** (`phase_hic` in `src/test/test_bubble_align.cpp`):
  1. Contig names from the GFA get incremental ids.
  2. The overlap candidates the minimizer hasher reports become oriented pairs
     (longer sequence first), with no duplicates.
  3. Every pair's minimap2 hits are tallied from their CIGAR words into
     alignment blocks.
  4. Pairs too unequal in length, or with too few matches, are dropped.
  5. The others become weighted edges of an alignment graph (`map_sequences`).
  6. The mutual-best reduction loop, repeated to a fixed point:
     - moves every edge whose two ends are each other's best neighbour, and
       which still fits under both nodes' remaining length, into a
       "symmetrical" graph;
     - credits the edge weight to both nodes' coverage;
     - deletes the moved edges.
- **Hi-C contact phaser** (`phase_hic` in
  `src/executable/phase_contacts_as_tripartition.cpp`):
  1. Contig ids are loaded from the GFA.
  2. The alignment file is refused unless its extension is ".bam".
  3. The BAM records are grouped by query name and filtered by
     reference-name prefix, mapq and primary flag
     (`parse_unpaired_bam_file`).
  4. Each group of two or more kept records adds one contact to every pair of
     its references (`update_contact_map`).
  5. Contigs the hasher pairs up as symmetrical overlaps get their alt flag set.

Modules:

| module | models |
|---|---|
| `Wrappers` | an Option type |
| `IdMaps` | `IncrementalIdMap`: the name ↔ id bimap, as a class, and the GFA name loop |
| `ContactGraphs` | the `ContactGraph` the drivers use. `Graph` is its value model: nodes with length, coverage and alt flag; weighted, unordered edges; and the edge iteration order. The class with the same operations is proved against it. |
| `HicContacts` | `update_contact_map` |
| `HicParse` | the `parse_unpaired_bam_file` callback, as a state machine (`Scan`, `Step`) and as a class `UnpairedBamParser` |
| `AltLinks` | the alt-link loop over the symmetrical overlaps |
| `HicPhasing` | `path::extension`, the ".bam" check and the Hi-C `phase_hic` |
| `BubbleAlign` | pair preparation, CIGAR tally, chain building, clipping and filters, and the graph update of `map_sequences` |
| `MutualBest` | the best-neighbour search and the mutual-best fixed-point reduction |
| `BubblePipeline` | the bubble aligner's `phase_hic`, from the names to the two graphs |

How the stateful parts are modelled:

- Every imperative loop of the source is a `method` with a `while` or `for`
  loop, proved equal to a function on values.
- Every object the source mutates is a `class` whose methods carry
  `modifies` clauses.
- What the source promises is then proved as lemmas about those functions:
  - orientation and deduplication of pairs;
  - the CIGAR counters add up;
  - the alignment-graph invariant (coverage 0, true lengths, weights at most
    the longer length);
  - the reduction partitions the edges;
  - coverage equals the weight of the confirmed edges at the node;
  - the result is a fixed point where no edge is confirmable;
  - every sequence ends with at most four symmetrical alignments;
  - the number of contacts is n(n-1)/2;
  - the grouping of the BAM stream, the order-independence of the alt links,
    and the ".bam" test on the file name.

## Model

| member | source | states |
|---|---|---|
| IdMaps.IncrementalIdMap.TryInsert | src/executable/phase_contacts_as_tripartition.cpp:60 | a known name keeps its id and changes nothing; a new name gets the next id, appended to the names; the bimap stays consistent |
| IdMaps.IncrementalIdMap.GetId | src/executable/phase_contacts_as_tripartition.cpp:179 | the id of a known name is in range and maps back to the name |
| IdMaps.InsertAll | src/executable/phase_contacts_as_tripartition.cpp:145-147 | inserting names keeps the old names as a prefix and holds exactly the old and the inserted names |
| IdMaps.InsertAllAppend | src/executable/phase_contacts_as_tripartition.cpp:145-147 | inserting two batches one after the other is inserting their concatenation |
| IdMaps.LoadSequenceNames | src/executable/phase_contacts_as_tripartition.cpp:145-147 | the GFA sequence loop (also test_bubble_align.cpp:265-269) yields a fresh valid id map over exactly the sequence names, in first-seen order; every sequence name has an id |
| IdMaps.IncrementalIdMap.constructor | src/executable/phase_contacts_as_tripartition.cpp:139 | a new id map is empty and consistent |
| ContactGraphs.Key | src/executable/phase_contacts_as_tripartition.cpp:67 | an edge is keyed by its two ends, the smaller first |
| ContactGraphs.KeyIsUnordered | src/executable/phase_contacts_as_tripartition.cpp:67 | an edge (a, b) is the same edge as (b, a) |
| ContactGraphs.InsertEdgeKeepsFirstWeight | src/test/test_bubble_align.cpp:231 | try_insert_edge on an existing edge, either direction, keeps the first weight |
| ContactGraphs.Without | src/test/test_bubble_align.cpp:439 | removing an edge from the iteration order removes exactly that edge and keeps the others distinct |
| ContactGraphs.NeighborsIn | src/test/test_bubble_align.cpp:376 | the neighbours of n are exactly the nodes it shares an edge with |
| ContactGraphs.ContactGraph.constructor | src/test/test_bubble_align.cpp:285 | a new contact graph has no nodes and no edges |
| ContactGraphs.ContactGraph.TryInsertNode | src/test/test_bubble_align.cpp:225-226 | try_insert_node is Graph.InsertNode: a no-op on a known id, else a node of length 0 with the given coverage; well-formedness is kept |
| ContactGraphs.ContactGraph.TryInsertEdge | src/test/test_bubble_align.cpp:231 | try_insert_edge is Graph.InsertEdge: an edge between two nodes is added once, under its key, at the end of the edge order, and keeps its first weight |
| ContactGraphs.ContactGraph.IncrementEdgeWeight | src/executable/phase_contacts_as_tripartition.cpp:68 | increment_edge_weight raises the weight of an existing edge, named in either order, and changes nothing else |
| ContactGraphs.ContactGraph.SetNodeLength | src/test/test_bubble_align.cpp:233-234 | set_node_length changes only that node's length |
| ContactGraphs.ContactGraph.SetNodeCoverage | src/test/test_bubble_align.cpp:228-229 | set_node_coverage changes only that node's coverage |
| ContactGraphs.ContactGraph.IncrementCoverage | src/test/test_bubble_align.cpp:428-429 | increment_coverage raises only that node's coverage |
| ContactGraphs.ContactGraph.AddAlt | src/executable/phase_contacts_as_tripartition.cpp:183 | add_alt flags both nodes as alts and adds no edge |
| ContactGraphs.ContactGraph.RemoveEdge | src/test/test_bubble_align.cpp:439 | remove_edge deletes the edge, named in either order, from the weights and the edge order, and keeps the other edges in order |
| ContactGraphs.ContactGraph.HasNode | src/executable/phase_contacts_as_tripartition.cpp:182 | has_node holds exactly when try_insert_node of that id would change nothing |
| ContactGraphs.ContactGraph.EdgeWeight | src/test/test_bubble_align.cpp:377 | get_edge_weight gives the same weight whichever end is named first |
| ContactGraphs.ContactGraph.Neighbors | src/test/test_bubble_align.cpp:376 | for_each_node_neighbor visits exactly the nodes that share an edge with the node |
| HicContacts.AddContactsWeights | src/executable/phase_contacts_as_tripartition.cpp:63-69 | adding contacts keeps the nodes; every contact edge exists afterwards, with its weight raised by the number of times it was added |
| HicContacts.AddContactsNodes | src/executable/phase_contacts_as_tripartition.cpp:67-68 | adding edges and incrementing weights leaves the nodes unchanged |
| HicContacts.AddContactsValid | src/executable/phase_contacts_as_tripartition.cpp:63-69 | contacts between existing nodes keep the graph well formed |
| HicContacts.InsertNodesAllFacts | src/executable/phase_contacts_as_tripartition.cpp:61-66 | inserting nodes keeps the edges and old nodes, and adds the new ones with coverage 0 |
| HicContacts.InsertNodeCommutes | src/executable/phase_contacts_as_tripartition.cpp:61-68 | inserting a node commutes with adding contacts, so the order of the row's inserts does not matter |
| HicContacts.PairsCount | src/executable/phase_contacts_as_tripartition.cpp:58-69 | the first r rows of the triangle hold r(2n-r-1)/2 contacts |
| HicContacts.ContactPairsCount | src/executable/phase_contacts_as_tripartition.cpp:58-69 | a group of n alignments adds exactly n(n-1)/2 contacts |
| HicContacts.PairOfContact | src/executable/phase_contacts_as_tripartition.cpp:58-69 | every contact comes from some pair i < j of the group |
| HicContacts.ContactOfPair | src/executable/phase_contacts_as_tripartition.cpp:58-69 | every pair i < j of the group yields its contact |
| HicContacts.ContactPairsMembership | src/executable/phase_contacts_as_tripartition.cpp:58-69 | an edge is a contact of the group iff it joins the references of two different positions i < j |
| HicContacts.ContactStep | src/executable/phase_contacts_as_tripartition.cpp:67-68 | one try_insert_edge plus increment_edge_weight by 1 adds one contact |
| HicContacts.ContactSpec | src/executable/phase_contacts_as_tripartition.cpp:58-70 | defines the graph after one update_contact_map: the group's ids as nodes and one contact per pair i < j; its count and membership are ContactPairsCount and ContactPairsMembership |
| HicContacts.RefNames | src/executable/phase_contacts_as_tripartition.cpp:60 | the reference names of the alignments, position by position |
| HicContacts.IdsOf | src/executable/phase_contacts_as_tripartition.cpp:60-65 | the ids of the names, position by position |
| HicContacts.KnownAreNodes | src/executable/phase_contacts_as_tripartition.cpp:61-66 | every reference id seen so far is a node of the graph |
| HicContacts.RowNode | src/executable/phase_contacts_as_tripartition.cpp:66 | the node insert in the inner loop does not change the graph built so far, except for the first row, where it adds that node |
| HicContacts.RowEdge | src/executable/phase_contacts_as_tripartition.cpp:67-68 | both ends are nodes, and one inner step adds the contact (i, j) |
| HicContacts.AgreeAfterInsert | src/executable/phase_contacts_as_tripartition.cpp:65 | a later try_insert of a known name returns the id it got before |
| HicContacts.NamesAfterInsert | src/executable/phase_contacts_as_tripartition.cpp:65 | the id map after j inserts holds the names of the first j references |
| HicContacts.PairId | src/executable/phase_contacts_as_tripartition.cpp:64-65 | the inner loop's try_insert gives alignment j's reference its id; in the first row that id is new to the ids seen so far, later it is the one seen before; the id map grows by that name |
| HicContacts.PairEdge | src/executable/phase_contacts_as_tripartition.cpp:66-68 | the node insert, try_insert_edge and increment_edge_weight together extend the graph by the contact (i, j) |
| HicContacts.ContactPair | src/executable/phase_contacts_as_tripartition.cpp:63-69 | one inner iteration: alignment j gets its id and node and the pair (i, j) one more contact |
| HicContacts.ContactRow | src/executable/phase_contacts_as_tripartition.cpp:63-69 | the inner loop adds row i of the triangle and registers every reference name |
| HicContacts.ContactRowAll | src/executable/phase_contacts_as_tripartition.cpp:59-69 | one pass of the outer loop completes row i |
| HicContacts.RowHead | src/executable/phase_contacts_as_tripartition.cpp:59-61 | the head of row i: alignment i gets its id and node; in the first row this is the group's first id, later rows find it already present |
| HicContacts.UpdateContactMap | src/executable/phase_contacts_as_tripartition.cpp:52-71 | the id map gains the reference names in order; the graph gains those nodes and one contact per pair i < j (ContactSpec) |
| HicContacts.GroupDone | src/executable/phase_contacts_as_tripartition.cpp:58-70 | after all rows, the graph is ContactSpec of the group's ids |
| HicParse.CharAt | src/executable/phase_contacts_as_tripartition.cpp:107 | ref_name[i] is the i-th character within the string |
| HicParse.PrefixMatchesIsPrefix | src/executable/phase_contacts_as_tripartition.cpp:104-112 | for a prefix without NUL, the character loop accepts exactly the names that start with the prefix (the empty prefix accepts all) |
| HicParse.HasRequiredPrefix | src/executable/phase_contacts_as_tripartition.cpp:104-112 | the prefix loop returns true iff the name passes the character test |
| HicParse.AcceptedRecords | src/executable/phase_contacts_as_tripartition.cpp:99-118 | the kept records are records of the stream that pass the reference, prefix, mapq and primary filters |
| HicParse.Begin | src/executable/phase_contacts_as_tripartition.cpp:88-97 | defines the first part of the callback: the buffer is closed when the query name changes; its effect on the groups is StepPartition and StepKeepsInvariant |
| HicParse.Keep | src/executable/phase_contacts_as_tripartition.cpp:99-121 | defines the filter part of the callback: a record without a reference is skipped, an accepted one is buffered, and the counter moves |
| HicParse.Step | src/executable/phase_contacts_as_tripartition.cpp:87-122 | defines one callback as Begin then Keep; StepPartition proves what it adds to the stream |
| HicParse.ScanAll | src/executable/phase_contacts_as_tripartition.cpp:87-122 | defines the callback state after a whole stream; ScanPartition and GroupsAreSingleReads prove its groups |
| HicParse.Flushed | src/executable/phase_contacts_as_tripartition.cpp:93-95 | exactly the cleared groups with more than one record reach update_contact_map |
| HicParse.StepPartition | src/executable/phase_contacts_as_tripartition.cpp:87-122 | one callback adds the record to the buffered-or-cleared stream iff it is accepted |
| HicParse.ScanPartition | src/executable/phase_contacts_as_tripartition.cpp:87-122 | the cleared groups followed by the buffer are exactly the accepted records, in stream order |
| HicParse.StepKeepsInvariant | src/executable/phase_contacts_as_tripartition.cpp:87-122 | the buffer holds records of the current query name only, and every cleared group is one read |
| HicParse.GroupsAreSingleReads | src/executable/phase_contacts_as_tripartition.cpp:87-122 | every group handed on, and the final buffer, belongs to a single query name |
| HicParse.SingleReadNeverFlushed | src/executable/phase_contacts_as_tripartition.cpp:87-122 | a stream of one read is never flushed: all its accepted records stay in the buffer |
| HicParse.Groups | src/executable/phase_contacts_as_tripartition.cpp:87-122 | defines the groups of a stream with the final buffer closed too; AllGroupsCoverAccepted proves they are the accepted records |
| HicParse.AllGroupsCoverAccepted | src/executable/phase_contacts_as_tripartition.cpp:87-122 | the groups, with the final one closed, are exactly the accepted records |
| HicParse.SingleReadFlushedWhenClosed | src/executable/phase_contacts_as_tripartition.cpp:92-97 | with the final group closed, one read with two or more accepted records is flushed as one group |
| HicParse.FlushAllStable | src/executable/phase_contacts_as_tripartition.cpp:94 | flushing earlier groups is unaffected by ids inserted later |
| HicParse.FlushedAppend | src/executable/phase_contacts_as_tripartition.cpp:93-95 | closing a buffer passes it on iff it has more than one record |
| HicParse.FlushStep | src/executable/phase_contacts_as_tripartition.cpp:92-97 | flushing one more buffer extends the graph by that group's contacts |
| HicParse.FlushedNames | src/executable/phase_contacts_as_tripartition.cpp:94 | defines the reference names handed to update_contact_map, group after group |
| HicParse.FlushedNamesAppend | src/executable/phase_contacts_as_tripartition.cpp:93-96 | handing on one more buffer of more than one record inserts its reference names after the earlier ones; a buffer kept back inserts none |
| HicParse.RefNamesAppend | src/executable/phase_contacts_as_tripartition.cpp:60-65 | the reference names of two lists of alignments are those of the first followed by those of the second |
| HicParse.FlushBuffer | src/executable/phase_contacts_as_tripartition.cpp:93-96 | update_contact_map runs on the buffer iff it holds more than one record: the id map becomes the starting names plus the reference names of the buffers handed on, this one included, in order; the graph gains this buffer's contacts |
| HicParse.UnpairedBamParser.ClearBuffer | src/executable/phase_contacts_as_tripartition.cpp:92-97 | the buffer is logged as closed and emptied, flushed first when it holds more than one record; the parser invariant holds: the id map is the starting names plus, in order, the reference names of every buffer handed on so far, and the graph holds those buffers' contacts |
| HicParse.UnpairedBamParser.BeginRecord | src/executable/phase_contacts_as_tripartition.cpp:88-97 | the first part of the callback is Begin on the parser state, and the parser invariant holds: the id map is the starting names plus, in order, the reference names of every buffer handed on so far, and the graph holds those buffers' contacts |
| HicParse.UnpairedBamParser.FilterRecord | src/executable/phase_contacts_as_tripartition.cpp:99-121 | the second part of the callback is Keep on the parser state; the graph and the id map are untouched |
| HicParse.UnpairedBamParser.OnAlignment | src/executable/phase_contacts_as_tripartition.cpp:87-122 | one callback is Step on the parser state, and the parser invariant holds: the id map is the starting names plus, in order, the reference names of every buffer handed on so far, and the graph holds those buffers' contacts |
| HicParse.ScanRecords | src/executable/phase_contacts_as_tripartition.cpp:87-122 | the callback over a stream leaves the state ScanAll, and the parser invariant holds: the id map is the starting names plus, in order, the reference names of every buffer handed on so far, and the graph holds those buffers' contacts |
| HicParse.ParseUnpairedBam | src/executable/phase_contacts_as_tripartition.cpp:74-123 | as written: the id map gains exactly the reference names of the groups cleared before the stream ends, in order, and the graph gains their contacts; nothing for the last group |
| HicParse.ParseUnpairedBamFlushingLast | src/executable/phase_contacts_as_tripartition.cpp:74-123 | corrected: the id map gains exactly the reference names of every group of more than one record, the last one included, in order, and the graph gains their contacts |
| AltLinks.VisitedOverlaps | src/executable/phase_contacts_as_tripartition.cpp:178 | the overlaps visited so far |
| AltLinks.AltLinked | src/executable/phase_contacts_as_tripartition.cpp:178-185 | defines the nodes after the alt-link loop: a node is an alt iff it was or some overlap pairs it with another node; LinkAllAnyOrder proves the loop reaches it in any order |
| AltLinks.LinkAll | src/executable/phase_contacts_as_tripartition.cpp:178-185 | defines the graph after the loop visits the overlaps in a given order |
| AltLinks.PartnerStep | src/executable/phase_contacts_as_tripartition.cpp:178-185 | visiting overlap (a, b) marks exactly ids a and b as alt, and only when both are nodes |
| AltLinks.AltStep | src/executable/phase_contacts_as_tripartition.cpp:178-185 | one visit of the loop changes only the alt flags of the pair's ids, and only when both are nodes |
| AltLinks.LinkAllAnyOrder | src/executable/phase_contacts_as_tripartition.cpp:178-185 | visiting the overlaps in any order gives the same alt flags: a node is alt iff some overlap pairs it with a node |
| AltLinks.AddAltLinks | src/executable/phase_contacts_as_tripartition.cpp:178-185 | the loop sets the alt flags of AltLinked and changes nothing else |
| AltLinks.LinkOverlap | src/executable/phase_contacts_as_tripartition.cpp:179-184 | one iteration: add_alt on the two ids iff both are nodes |
| AltLinks.NoneVisited | src/executable/phase_contacts_as_tripartition.cpp:178 | before the loop, no alt flag has been set |
| AltLinks.AllVisited | src/executable/phase_contacts_as_tripartition.cpp:185 | after all overlaps, the flags are AltLinked |
| HicPhasing.LastIndexOf | src/executable/phase_contacts_as_tripartition.cpp:156 | the last position of a character, or -1 iff it does not occur |
| HicPhasing.FileName | src/executable/phase_contacts_as_tripartition.cpp:156 | the file name is the separator-free tail after the last '/' |
| HicPhasing.LastPeriod | src/executable/phase_contacts_as_tripartition.cpp:156 | a period with no period after it is the last period |
| HicPhasing.BamExtensionEnding | src/executable/phase_contacts_as_tripartition.cpp:156 | a ".bam" extension means a file name longer than four characters that ends in ".bam" |
| HicPhasing.BamEndingExtension | src/executable/phase_contacts_as_tripartition.cpp:156 | a file name longer than four characters that ends in ".bam" has the extension ".bam" |
| HicPhasing.ExtensionIsBam | src/executable/phase_contacts_as_tripartition.cpp:156-161 | the path is accepted iff its file name ends in ".bam" and is not just ".bam" |
| HicPhasing.NameExtension | src/executable/phase_contacts_as_tripartition.cpp:156 | defines path::extension on a file name: from its last period, except a leading period, "." and ".."; BamExtensionEnding and BamEndingExtension characterise ".bam" |
| HicPhasing.PhasedGraph | src/executable/phase_contacts_as_tripartition.cpp:126-185 | defines the graph phase_hic builds: the contacts of the groups handed on, then the alt flags of the overlaps |
| HicPhasing.LinkAlts | src/executable/phase_contacts_as_tripartition.cpp:178-185 | the alt-link loop on the graph the parser left yields PhasedGraph |
| HicPhasing.PhaseHic | src/executable/phase_contacts_as_tripartition.cpp:126-185 | as written: refused, with an empty graph and the GFA names only, iff the extension is not ".bam"; otherwise the id map is the GFA names followed by the reference names of the groups parse_unpaired_bam_file hands on (never the last one), and the graph is those groups' contacts with the alt flags of the overlaps (PhasedGraph) |
| HicPhasing.PhaseHicFlushingLast | src/executable/phase_contacts_as_tripartition.cpp:126-185 | corrected: as PhaseHic, except that the last group is handed on like every other, so its names and contacts are counted |
| BubbleAlign.OrientLongerFirst | src/test/test_bubble_align.cpp:296-302 | a queued pair is the candidate in one of its two orientations, never shorter first, strictly longer first when the lengths differ |
| BubbleAlign.OrientCollapses | src/test/test_bubble_align.cpp:296-312 | (a, b) and (b, a) give the same pair iff the lengths differ |
| BubbleAlign.Orient | src/test/test_bubble_align.cpp:296-302 | defines the ordered pair: the longer sequence first, the second name first on equal lengths; OrientLongerFirst and OrientCollapses prove this |
| BubbleAlign.Queued | src/test/test_bubble_align.cpp:287-313 | defines the set of pairs the overlap callback queues; QueuedMembers and QueuedNoSelfPairs characterise it |
| BubbleAlign.QueuedMembers | src/test/test_bubble_align.cpp:287-313 | a pair is queued iff some reported candidate of two different names orients to it |
| BubbleAlign.QueuedNoSelfPairs | src/test/test_bubble_align.cpp:288-291 | no queued pair aligns a sequence to itself |
| BubbleAlign.PreparePairs | src/test/test_bubble_align.cpp:287-320 | the jobs are the queued pairs, each exactly once |
| BubbleAlign.CopyPairs | src/test/test_bubble_align.cpp:315-320 | copying the set into the vector keeps every pair, once, and the count |
| BubbleAlign.CigarLength | src/test/test_bubble_align.cpp:168 | the length of a 32-bit CIGAR word fits in 28 bits |
| BubbleAlign.CigarOp | src/test/test_bubble_align.cpp:169 | a word has an operation iff its code is inside minimap2's table |
| BubbleAlign.CigarRoundTrip | src/test/test_bubble_align.cpp:167-169 | decoding a packed (length, code) word gives back both |
| BubbleAlign.OpTotalAppend | src/test/test_bubble_align.cpp:167-183 | the counters over two CIGAR parts add up |
| BubbleAlign.TallyBounded | src/test/test_bubble_align.cpp:167-183 | the four counters add up to at most the CIGAR's total length, and exactly to it when every operation is =, X, I or D |
| BubbleAlign.TallyCigar | src/test/test_bubble_align.cpp:167-183 | the CIGAR loop adds each operation's total to its counter |
| BubbleAlign.ChainFromPrimaryHits | src/test/test_bubble_align.cpp:150-189 | every block comes from a primary hit (id == parent); the chain is empty iff no hit is primary |
| BubbleAlign.ChainOf | src/test/test_bubble_align.cpp:150-189 | defines the chain: one tallied block per primary hit, in hit order; ChainFromPrimaryHits characterises it |
| BubbleAlign.BuildChain | src/test/test_bubble_align.cpp:150-189 | the hit loop builds the chain of the primary hits, in order |
| BubbleAlign.RatioBelowIsFraction | src/test/test_bubble_align.cpp:215-217 | the cross-multiplied test is the quotient comparison with min_similarity |
| BubbleAlign.TotalMatches | src/test/test_bubble_align.cpp:212-213 | the weight is the approximate match count clipped to the longer length |
| BubbleAlign.AlignJobFilters | src/test/test_bubble_align.cpp:84-240 | a job adds its edge only when the size ratio passes, some hit is primary and the clipped matches pass; the weight is the clipped matches |
| BubbleAlign.AlignJob | src/test/test_bubble_align.cpp:84-240 | defines one job's effect on the graph: the size-ratio, chain and match filters, then the update; AlignJobFilters and AlignJobKeepsInv prove its behaviour |
| BubbleAlign.AddAlignment | src/test/test_bubble_align.cpp:222-234 | defines the graph update: both nodes with coverage 0 and their lengths, then one try_insert_edge; AddAlignmentNodes, AddAlignmentWeights and AddAlignmentKeepsInv prove it |
| BubbleAlign.AlignAll | src/test/test_bubble_align.cpp:73-241 | defines the jobs run in order; AlignAllKeepsInv proves its invariant |
| BubbleAlign.AddAlignmentNodes | src/test/test_bubble_align.cpp:222-234 | the update adds both nodes with coverage 0 and their lengths, and leaves other nodes alone |
| BubbleAlign.AddAlignmentWeights | src/test/test_bubble_align.cpp:231 | the update's edges are those of a single try_insert_edge |
| BubbleAlign.AddAlignmentKeepsInv | src/test/test_bubble_align.cpp:222-234 | the update keeps the alignment-graph invariant |
| BubbleAlign.AlignJobKeepsInv | src/test/test_bubble_align.cpp:84-240 | a whole job keeps the alignment-graph invariant |
| BubbleAlign.AlignAllKeepsInv | src/test/test_bubble_align.cpp:73-241 | all jobs keep it: nodes are named ids with coverage 0 and their true length, and edges join two different nodes with weight at most the longer length |
| BubbleAlign.AlignPair | src/test/test_bubble_align.cpp:84-240 | one iteration of map_sequences is AlignJob on the graph |
| BubbleAlign.MapSequences | src/test/test_bubble_align.cpp:61-242 | map_sequences runs the jobs in order (AlignAll) |
| MutualBest.BestOfIsFirstMax | src/test/test_bubble_align.cpp:370-401 | the best value is at least every neighbour weight; it stays -1 iff no weight exceeds -1, with best -1; otherwise best is the first neighbour with the maximum weight |
| MutualBest.BestOf | src/test/test_bubble_align.cpp:370-401 | defines the neighbour scan: the first neighbour whose weight beats every earlier one, starting from (-1, -1); BestOfIsFirstMax characterises it |
| MutualBest.Best | src/test/test_bubble_align.cpp:376-387 | defines the best neighbour of a node over its neighbour order |
| MutualBest.Confirmable | src/test/test_bubble_align.cpp:403-419 | defines the test: the two ends are each other's best neighbours, the weight exceeds a fifth of both lengths and fits under both remaining coverages |
| MutualBest.BestNeighbor | src/test/test_bubble_align.cpp:376-387 | the neighbour loop computes Best |
| MutualBest.Credited | src/test/test_bubble_align.cpp:428-429 | crediting coverage keeps the edges and the node set |
| MutualBest.RecordedValid | src/test/test_bubble_align.cpp:420-426 | recording a confirmed edge keeps the symmetrical graph well formed |
| MutualBest.Recorded | src/test/test_bubble_align.cpp:420-426 | defines what the symmetrical graph gains from a confirmed edge; RecordedNodes, RecordedEdges and RecordedValid prove its shape |
| MutualBest.Confirm | src/test/test_bubble_align.cpp:403-433 | testing one edge keeps the alignment graph's edges; the edge is marked for deletion iff it is confirmable |
| MutualBest.Sweep | src/test/test_bubble_align.cpp:361-435 | one pass keeps the edges and only marks edges it visited |
| MutualBest.Filter | src/test/test_bubble_align.cpp:438-439 | removing a set of edges from the order keeps exactly the others, and is strictly shorter when it hits one |
| MutualBest.FilterOneMore | src/test/test_bubble_align.cpp:438-439 | removing one more edge is filtering by the larger set |
| MutualBest.RemoveNone | src/test/test_bubble_align.cpp:437-442 | deleting nothing changes nothing |
| MutualBest.RemoveOneMore | src/test/test_bubble_align.cpp:438-439 | remove_edge after deleting a set is deleting the set plus that edge |
| MutualBest.Reduce | src/test/test_bubble_align.cpp:357-445 | the reduction ends with two well-formed graphs |
| MutualBest.QuietRound | src/test/test_bubble_align.cpp:437-445 | a pass that marks nothing changes nothing, and none of its edges was confirmable |
| MutualBest.ReduceFixedPoint | src/test/test_bubble_align.cpp:357-445 | when the loop stops, no edge of the alignment graph is confirmable |
| MutualBest.Passes | src/test/test_bubble_align.cpp:357-445 | the number of rounds of the while loop is at least one and at most one more than the starting number of edges |
| MutualBest.SettledRound | src/test/test_bubble_align.cpp:361-435 | a round over edges none of which passes the test changes nothing |
| MutualBest.ReduceSettled | src/test/test_bubble_align.cpp:357-445 | on a graph where no edge passes the test, the loop runs once and changes nothing |
| MutualBest.ReduceIdempotent | src/test/test_bubble_align.cpp:357-445 | running the reduction again on its own result changes nothing |
| MutualBest.LoadInFrame | src/test/test_bubble_align.cpp:426 | a weight outside the order does not change a node's load |
| MutualBest.LoadInAppend | src/test/test_bubble_align.cpp:426-429 | recording an edge adds its weight to the load of exactly its two ends |
| MutualBest.RecordedNodes | src/test/test_bubble_align.cpp:420-424 | the recorded ends carry the lengths of the alignment graph; other nodes are unchanged |
| MutualBest.RecordedEdges | src/test/test_bubble_align.cpp:426 | a new symmetrical edge is appended with its weight |
| MutualBest.RecordedShape | src/test/test_bubble_align.cpp:420-426 | recording has the node and edge shape the step lemmas use |
| MutualBest.CreditedShape | src/test/test_bubble_align.cpp:428-429 | crediting raises both ends' coverage by the weight and nothing else |
| MutualBest.ConfirmKeepsSplit | src/test/test_bubble_align.cpp:419-433 | every original edge is in the alignment graph or the symmetrical one, with its weight, and in both iff it is marked |
| MutualBest.CoveredStep | src/test/test_bubble_align.cpp:419-429 | coverage stays the original coverage plus the confirmed weights at the node |
| MutualBest.BoundedStep | src/test/test_bubble_align.cpp:410-429 | every confirmed edge weighs over a fifth of each end's length, and both ends' coverage stays below their length |
| MutualBest.ConfirmKeeps | src/test/test_bubble_align.cpp:403-433 | testing one edge keeps the whole invariant |
| MutualBest.SweepKeeps | src/test/test_bubble_align.cpp:361-435 | a whole pass keeps it |
| MutualBest.RemoveKeeps | src/test/test_bubble_align.cpp:437-442 | deleting the marked edges keeps it |
| MutualBest.ReduceKeeps | src/test/test_bubble_align.cpp:357-445 | the loop keeps it to the end |
| MutualBest.MutualBestReduction | src/test/test_bubble_align.cpp:355-445 | at the end no edge is confirmable; the original edges are split between the two graphs with their weights; nodes and lengths are kept; coverage is the confirmed weight at the node; every symmetrical edge weighs over a fifth of both ends' lengths, and both ends' coverage stays below their length |
| MutualBest.LoadAtLeast | src/test/test_bubble_align.cpp:412-413 | c edges each over a fifth of the length weigh at least c(length+1)/5 |
| MutualBest.FewerThanFive | src/test/test_bubble_align.cpp:410-413 | a load below the length with c edges over a fifth of it means c <= 4 |
| MutualBest.FourPartnersAt | src/test/test_bubble_align.cpp:410-413 | under the invariant, no node has more than four symmetrical edges |
| MutualBest.AtMostFourPartners | src/test/test_bubble_align.cpp:355-445 | after the reduction, every node has at most four symmetrical alignments |
| MutualBest.RecordEdge | src/test/test_bubble_align.cpp:420-426 | the symmetrical graph after the five calls is Recorded |
| MutualBest.CreditEdge | src/test/test_bubble_align.cpp:428-429 | the alignment graph after the two increments is Credited |
| MutualBest.TestEdge | src/test/test_bubble_align.cpp:361-434 | testing one edge is Confirm on both graphs and the deletion set |
| MutualBest.SweepEdges | src/test/test_bubble_align.cpp:361-435 | the for_each_edge pass is Sweep over the edge order at the start of the pass |
| MutualBest.RemoveConfirmed | src/test/test_bubble_align.cpp:439 | remove_edge extends the set deleted so far by one |
| MutualBest.DeleteEdges | src/test/test_bubble_align.cpp:437-442 | the deletion loop removes exactly the marked edges, and reports found iff there were any |
| MutualBest.ReduceToMutualBest | src/test/test_bubble_align.cpp:355-445 | the while loop leaves both graphs as Reduce of the alignment graph and an empty symmetrical graph, after Passes rounds, at most one more than the starting number of edges |
| BubblePipeline.QueuedNames | src/test/test_bubble_align.cpp:287-320 | the names of a queued pair are GFA names, and they differ |
| BubblePipeline.AlignedPartners | src/test/test_bubble_align.cpp:355-445 | the reduction of any alignment graph leaves every sequence with at most four symmetrical alignments |
| BubblePipeline.BuildAlignmentGraph | src/test/test_bubble_align.cpp:285-353 | the alignment graph is AlignAll of the jobs from an empty graph and satisfies the alignment-graph invariant |
| BubblePipeline.AlignBubbles | src/test/test_bubble_align.cpp:245-445 | the bubble aligner's phase_hic: ids are the GFA names; jobs are the distinct queued pairs; the alignment graph keeps its invariant; the two graphs are its reduction; every sequence has at most four symmetrical alignments |

## Left out

- Files and I/O are not modelled. This covers output directories, GFA and BAM
  reading, `write_results`, `alignments.csv`, `pairs.csv`, `Timer` and every
  `cerr` line. The GFA's sequence names, the BAM records, the hasher's
  candidates and overlaps, and minimap2's hits are inputs.
- The hashers (`Hasher2::for_each_overlap`, `Hasher::get_symmetrical_matches`)
  are inputs, so their filtering (`max_hits`, the similarity thresholds) is
  not modelled.
- minimap2 is not modelled: indexing, mapping and its options. The hits, with
  their id, parent and CIGAR words, are inputs. So is
  `get_approximate_non_overlapping_matches`, as a number per pair.
- `AlignmentChain::sort_chains` is not modelled: the blocks are the input order.
- Threads in map_sequences are not modelled: the jobs run one after another,
  in index order. Under the mutex, the updates of different jobs are the
  same, but the order of edges and nodes can differ between runs.
- Iteration order over `unordered_set` and `sparse_hash_set` is not modelled:
  `PreparePairs` and `DeleteEdges` pick the next element with `:|`, and their
  contracts hold for every order.
- The `ContactGraph` library (ContactGraph.cpp) is not part of this model. Its
  operations are modelled from their use in the two drivers:
  - edges are unordered and keep their first weight on re-insertion;
  - `for_each_edge` follows edge insertion order;
  - `for_each_node_neighbor` follows that order at the node.
- Accessor failures are requires, not modelled error paths. This covers
  `get_id`, `get_edge_weight`, node accessors on a missing id and the
  `at()` calls. Neither driver reaches them with the names it passes.
- In the bubble aligner, `name_to_sequence[a]` on a name the GFA did not
  contain would insert index 0 and read the first sequence. The model
  requires every name to be a GFA name (`AlignBubbles`, `PreparePairs`).
- `int32_t` and `int8_t` widths are not modelled: the ids, weights, coverage
  and mapq are unbounded integers. The id casts `int32_t(id_map...)` are
  exact below 2^31 names.
- Doubles are modelled without floating point.
  - min_similarity is a `Fraction` (0.2 is 1/5), and the quotient tests are
    cross-multiplied (`RatioBelow`). A zero length makes the double test
    false, as with NaN or infinity.
  - `weight > length * 0.2` is `5 * weight > length`, and
    `coverage + weight < length` is compared exactly. Both agree with the
    doubles for int32 values.
- `CigarOp`: codes 10 to 15 are outside minimap2's table. They add nothing
  to the tally, whatever character lies past the table in memory.
- `HicParse.CharAt`: the position past the end of `ref_name` reads as NUL,
  as std::string does at `size()`. A prefix containing NUL is not otherwise
  modelled (`PrefixMatchesIsPrefix` requires none).
- The `IncrementalIdMap` constructor flag (`id_map(false)` in both drivers)
  is not modelled, because its meaning is not part of this model. Ids here
  count from 0 and are used only as labels: nothing in the drivers' core
  depends on their first value.
- The HamiltonianPath, Phase.cpp and random-phase-search code, and the
  adjacency vector and `HashGraph` that the Hi-C driver declares without
  using, are not part of this model.

## Findings

| source | as written | input that shows it | evidently intended | confidence | as-written member | corrected member |
|---|---|---|---|---|---|---|
| src/executable/phase_contacts_as_tripartition.cpp:87-122 | the buffer of alignments goes to update_contact_map only when a later record has a different query name, and nothing flushes it after the stream ends | a BAM whose records all belong to one read, with two primary alignments to references that pass the filters: no contact is added | the last read's group counts like every other group, so the buffer is flushed once more after the stream | not executed | HicParse.ParseUnpairedBam, HicParse.SingleReadNeverFlushed, HicPhasing.PhaseHic | HicParse.ParseUnpairedBamFlushingLast, HicParse.SingleReadFlushedWhenClosed, HicPhasing.PhaseHicFlushingLast |
