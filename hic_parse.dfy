/**
 * parse_unpaired_bam_file (phase_contacts_as_tripartition): a streaming
 * callback that groups consecutive BAM records by query name, keeps the
 * records that pass the reference-prefix, mapq and primary filters, and
 * hands every group of more than one kept record to update_contact_map
 * when the query name changes.
 *
 * `Scan` is the state the callback keeps between records, `Step` is one
 * call of the callback and `ScanAll` a whole stream; `UnpairedBamParser`
 * is the callback with its captured variables as fields. `cleared` is a
 * ghost record of every buffer the callback cleared, in order.
 */
module HicParse {
  import opened ContactGraphs
  import opened IdMaps
  import opened HicContacts

  datatype Scan = Scan(l: nat, prev: string, buffer: seq<SamElement>, cleared: seq<seq<SamElement>>)

  /** ref_name[i] of a std::string: the terminating NUL at and past the end. */
  function CharAt(s: string, i: nat): (c: char)
    ensures i < |s| ==> c == s[i]
  {
    if i < |s| then s[i] else '\0'
  }

  /** The prefix loop finds no position where the reference name differs from the prefix. */
  predicate PrefixMatches(refName: string, prefix: string)
  {
    forall i | 0 <= i < |prefix| :: CharAt(refName, i) == prefix[i]
  }

  /** For a prefix without NUL characters, the loop is exactly a prefix test. */
  lemma PrefixMatchesIsPrefix(refName: string, prefix: string)
    requires '\0' !in prefix
    ensures PrefixMatches(refName, prefix) <==> prefix <= refName
  {
    if |refName| < |prefix| {
      assert prefix[|refName|] in prefix;
      assert CharAt(refName, |refName|) != prefix[|refName|];
    } else if PrefixMatches(refName, prefix) {
      assert prefix == refName[..|prefix|];
    }
  }

  /** The prefix test of the callback: the loop over required_prefix that stops at the first difference. */
  method HasRequiredPrefix(refName: string, prefix: string) returns (valid: bool)
    ensures valid <==> PrefixMatches(refName, prefix)
  {
    valid := true;
    if |prefix| > 0 {
      var i := 0;
      while i < |prefix|
        invariant 0 <= i <= |prefix|
        invariant valid <==> forall k | 0 <= k < i :: CharAt(refName, k) == prefix[k]
      {
        if CharAt(refName, i) != prefix[i] {
          valid := false;
          break;
        }
        i := i + 1;
      }
    }
  }

  /** A record is buffered when it names a reference that passes the prefix test, is mapped well enough and is primary. */
  predicate Accepted(a: SamElement, prefix: string, minMapq: int)
  {
    a.refName != [] && PrefixMatches(a.refName, prefix) && a.mapq >= minMapq && a.isPrimary
  }

  /** The first part of the callback: the buffer is closed when the query name changes. */
  function Begin(s: Scan, a: SamElement): Scan
  {
    var prev := if s.l == 0 then a.queryName else s.prev;
    if prev != a.queryName then Scan(s.l, prev, [], s.cleared + [s.buffer]) else s.(prev := prev)
  }

  /** The second part: a record without a reference stops here; any other is filtered and counted. */
  function Keep(s: Scan, a: SamElement, prefix: string, minMapq: int): Scan
  {
    if a.refName == [] then s
    else Scan(s.l + 1, a.queryName, if Accepted(a, prefix, minMapq) then s.buffer + [a] else s.buffer, s.cleared)
  }

  /** One call of the callback. */
  function Step(s: Scan, a: SamElement, prefix: string, minMapq: int): Scan
  {
    Keep(Begin(s, a), a, prefix, minMapq)
  }

  /** The callback state after a whole stream of records. */
  function ScanAll(records: seq<SamElement>, prefix: string, minMapq: int): Scan
    decreases |records|
  {
    if records == [] then Scan(0, "", [], [])
    else Step(ScanAll(records[..|records| - 1], prefix, minMapq), records[|records| - 1], prefix, minMapq)
  }

  /** The records of a stream the filters keep, in stream order. */
  function AcceptedRecords(records: seq<SamElement>, prefix: string, minMapq: int): (r: seq<SamElement>)
    ensures forall a | a in r :: a in records && Accepted(a, prefix, minMapq)
    decreases |records|
  {
    if records == [] then []
    else
      var rest := AcceptedRecords(records[..|records| - 1], prefix, minMapq);
      var a := records[|records| - 1];
      if Accepted(a, prefix, minMapq) then rest + [a] else rest
  }

  function Concat(groups: seq<seq<SamElement>>): seq<SamElement>
    decreases |groups|
  {
    if groups == [] then [] else Concat(groups[..|groups| - 1]) + groups[|groups| - 1]
  }

  /** The cleared buffers that were handed to update_contact_map: those holding more than one record. */
  function Flushed(groups: seq<seq<SamElement>>): (r: seq<seq<SamElement>>)
    ensures forall grp | grp in r :: grp in groups && |grp| > 1
    ensures forall grp | grp in groups && |grp| > 1 :: grp in r
    decreases |groups|
  {
    if groups == [] then []
    else
      var rest := Flushed(groups[..|groups| - 1]);
      var last := groups[|groups| - 1];
      assert forall grp | grp in groups :: grp in groups[..|groups| - 1] || grp == last;
      if |last| > 1 then rest + [last] else rest
  }

  lemma ConcatAppend(groups: seq<seq<SamElement>>, grp: seq<SamElement>)
    ensures Concat(groups + [grp]) == Concat(groups) + grp
  {
    assert (groups + [grp])[..|groups|] == groups;
  }

  /** One record adds itself to the grouped records exactly when it is accepted. */
  lemma StepPartition(s: Scan, a: SamElement, prefix: string, minMapq: int)
    ensures var s' := Step(s, a, prefix, minMapq);
      Concat(s'.cleared) + s'.buffer == Concat(s.cleared) + s.buffer + (if Accepted(a, prefix, minMapq) then [a] else [])
  {
    var s1 := Begin(s, a);
    if s1.cleared != s.cleared {
      ConcatAppend(s.cleared, s.buffer);
      assert s1.cleared == s.cleared + [s.buffer] && s1.buffer == [];
    }
    assert Concat(s1.cleared) + s1.buffer == Concat(s.cleared) + s.buffer;
    var s' := Keep(s1, a, prefix, minMapq);
    assert s'.cleared == s1.cleared;
    if a.refName != [] && Accepted(a, prefix, minMapq) {
      assert s'.buffer == s1.buffer + [a];
    } else {
      assert s'.buffer == s1.buffer;
    }
  }

  /** Every accepted record ends up in exactly one cleared buffer or in the final buffer, in stream order. */
  lemma {:induction false} ScanPartition(records: seq<SamElement>, prefix: string, minMapq: int)
    ensures Concat(ScanAll(records, prefix, minMapq).cleared) + ScanAll(records, prefix, minMapq).buffer
         == AcceptedRecords(records, prefix, minMapq)
    decreases |records|
  {
    if records != [] {
      var init := records[..|records| - 1];
      ScanPartition(init, prefix, minMapq);
      StepPartition(ScanAll(init, prefix, minMapq), records[|records| - 1], prefix, minMapq);
    }
  }

  /** All records of one buffer carry one query name. */
  ghost predicate OneRead(group: seq<SamElement>)
  {
    forall a, b | a in group && b in group :: a.queryName == b.queryName
  }

  /** The buffer holds records of the current query name only, and nothing is buffered before the first record with a reference. */
  ghost predicate ScanInvariant(s: Scan)
  {
    && (s.l == 0 ==> s.buffer == [])
    && (forall a | a in s.buffer :: a.queryName == s.prev)
    && (forall grp | grp in s.cleared :: OneRead(grp))
  }

  lemma StepKeepsInvariant(s: Scan, a: SamElement, prefix: string, minMapq: int)
    requires ScanInvariant(s)
    ensures ScanInvariant(Step(s, a, prefix, minMapq))
  {
    var prev := if s.l == 0 then a.queryName else s.prev;
    if prev != a.queryName {
      assert OneRead(s.buffer);
    }
  }

  /** Every group the callback forms, cleared or still buffered, belongs to a single read. */
  lemma {:induction false} GroupsAreSingleReads(records: seq<SamElement>, prefix: string, minMapq: int)
    ensures ScanInvariant(ScanAll(records, prefix, minMapq))
    ensures forall grp | grp in ScanAll(records, prefix, minMapq).cleared :: OneRead(grp)
    ensures OneRead(ScanAll(records, prefix, minMapq).buffer)
    decreases |records|
  {
    if records != [] {
      GroupsAreSingleReads(records[..|records| - 1], prefix, minMapq);
      StepKeepsInvariant(ScanAll(records[..|records| - 1], prefix, minMapq), records[|records| - 1], prefix, minMapq);
    }
  }

  /**
   * The final buffer is never handed on: a stream whose records all belong
   * to one read clears nothing, so however many of its records are kept,
   * update_contact_map never sees them.
   */
  lemma {:induction false} SingleReadNeverFlushed(records: seq<SamElement>, q: string, prefix: string, minMapq: int)
    requires forall a | a in records :: a.queryName == q
    ensures ScanAll(records, prefix, minMapq).cleared == []
    ensures Flushed(ScanAll(records, prefix, minMapq).cleared) == []
    ensures ScanAll(records, prefix, minMapq).buffer == AcceptedRecords(records, prefix, minMapq)
    ensures ScanAll(records, prefix, minMapq).l > 0 ==> ScanAll(records, prefix, minMapq).prev == q
    decreases |records|
  {
    if records != [] {
      var init := records[..|records| - 1];
      assert forall a | a in init :: a in records;
      SingleReadNeverFlushed(init, q, prefix, minMapq);
      assert records[|records| - 1] in records;
    }
  }

  /** With the final buffer closed as well, every accepted record is in some group handed on or dropped as a singleton. */
  lemma AllGroupsCoverAccepted(records: seq<SamElement>, prefix: string, minMapq: int)
    ensures Concat(Groups(records, prefix, minMapq)) == AcceptedRecords(records, prefix, minMapq)
  {
    var s := ScanAll(records, prefix, minMapq);
    ScanPartition(records, prefix, minMapq);
    var groups := s.cleared + [s.buffer];
    assert groups[..|groups| - 1] == s.cleared;
  }

  /** The groups of a stream once the final buffer is closed too. */
  function Groups(records: seq<SamElement>, prefix: string, minMapq: int): seq<seq<SamElement>>
  {
    ScanAll(records, prefix, minMapq).cleared + [ScanAll(records, prefix, minMapq).buffer]
  }

  /** For a single read, the closed final buffer is the one group handed on, when it holds more than one record. */
  lemma SingleReadFlushedWhenClosed(records: seq<SamElement>, q: string, prefix: string, minMapq: int)
    requires forall a | a in records :: a.queryName == q
    requires |AcceptedRecords(records, prefix, minMapq)| > 1
    ensures Flushed(Groups(records, prefix, minMapq)) == [AcceptedRecords(records, prefix, minMapq)]
  {
    SingleReadNeverFlushed(records, q, prefix, minMapq);
    var groups := Groups(records, prefix, minMapq);
    assert groups == [AcceptedRecords(records, prefix, minMapq)];
    assert groups[..0] == [];
  }

  /** Every reference named in the groups has an id. */
  ghost predicate RefsKnown(groups: seq<seq<SamElement>>, ids: map<string, int>)
  {
    forall grp, a | grp in groups && a in grp :: a.refName in ids
  }

  /** The graph after update_contact_map on each group in turn, every reference taking its id from `ids`. */
  ghost function FlushAll(g: Graph, ids: map<string, int>, groups: seq<seq<SamElement>>): Graph
    requires RefsKnown(groups, ids)
    decreases |groups|
  {
    if groups == [] then g
    else
      var last := groups[|groups| - 1];
      assert forall k | 0 <= k < |last| :: last[k] in last;
      ContactSpec(FlushAll(g, ids, groups[..|groups| - 1]), IdsOf(ids, RefNames(last)))
  }

  /** Ids once handed out never change, so later insertions leave the earlier groups' contacts as they were. */
  lemma {:induction false} FlushAllStable(g: Graph, ids1: map<string, int>, ids2: map<string, int>, groups: seq<seq<SamElement>>)
    requires RefsKnown(groups, ids1) && Extends(ids1, ids2)
    ensures RefsKnown(groups, ids2)
    ensures FlushAll(g, ids1, groups) == FlushAll(g, ids2, groups)
    decreases |groups|
  {
    if groups != [] {
      var last := groups[|groups| - 1];
      FlushAllStable(g, ids1, ids2, groups[..|groups| - 1]);
      assert forall k | 0 <= k < |last| :: last[k] in last;
      assert IdsOf(ids1, RefNames(last)) == IdsOf(ids2, RefNames(last));
    }
  }

  lemma FlushedAppend(groups: seq<seq<SamElement>>, grp: seq<SamElement>)
    ensures Flushed(groups + [grp]) == if |grp| > 1 then Flushed(groups) + [grp] else Flushed(groups)
  {
    assert (groups + [grp])[..|groups|] == groups;
  }

  /** Closing one more buffer hands it on when it holds more than one record, and keeps the contacts of the earlier ones. */
  lemma FlushStep(g0: Graph, ids0: map<string, int>, ids: map<string, int>, ids': map<string, int>,
                  cleared: seq<seq<SamElement>>, buffer: seq<SamElement>, g: Graph, g': Graph)
    requires Extends(ids0, ids) && RefsKnown(Flushed(cleared), ids) && g == FlushAll(g0, ids, Flushed(cleared))
    requires |buffer| > 1 ==> Extends(ids, ids') && (forall k | 0 <= k < |buffer| :: buffer[k].refName in ids')
    requires |buffer| > 1 ==> g' == ContactSpec(g, IdsOf(ids', RefNames(buffer)))
    requires |buffer| <= 1 ==> ids' == ids && g' == g
    ensures Extends(ids0, ids') && RefsKnown(Flushed(cleared + [buffer]), ids')
    ensures g' == FlushAll(g0, ids', Flushed(cleared + [buffer]))
  {
    FlushedAppend(cleared, buffer);
    if |buffer| > 1 {
      FlushAllStable(g0, ids, ids', Flushed(cleared));
      KnownAppend(Flushed(cleared), buffer, ids');
      FlushAllAppend(g0, ids', Flushed(cleared), buffer);
    }
  }

  /** A group whose references all have ids keeps the references known. */
  lemma KnownAppend(groups: seq<seq<SamElement>>, buffer: seq<SamElement>, ids: map<string, int>)
    requires RefsKnown(groups, ids) && forall k | 0 <= k < |buffer| :: buffer[k].refName in ids
    ensures RefsKnown(groups + [buffer], ids)
  {
    forall grp, a | grp in groups + [buffer] && a in grp
      ensures a.refName in ids
    {
      if grp == buffer {
        var k :| 0 <= k < |buffer| && buffer[k] == a;
      }
    }
  }

  /** Flushing one more group adds that group's contacts. */
  lemma FlushAllAppend(g0: Graph, ids: map<string, int>, groups: seq<seq<SamElement>>, buffer: seq<SamElement>)
    requires RefsKnown(groups + [buffer], ids)
    ensures RefsKnown(groups, ids) && forall k | 0 <= k < |buffer| :: buffer[k].refName in ids
    ensures FlushAll(g0, ids, groups + [buffer]) == ContactSpec(FlushAll(g0, ids, groups), IdsOf(ids, RefNames(buffer)))
  {
    assert (groups + [buffer])[..|groups|] == groups;
    assert forall k | 0 <= k < |buffer| :: buffer[k] in buffer;
  }

  /** The reference names handed to update_contact_map, group after group. */
  function FlushedNames(groups: seq<seq<SamElement>>): seq<string>
  {
    RefNames(Concat(Flushed(groups)))
  }

  /** Handing one more buffer on inserts its reference names after the earlier ones; a buffer kept back adds none. */
  lemma FlushedNamesAppend(names0: seq<string>, cleared: seq<seq<SamElement>>, buffer: seq<SamElement>)
    ensures |buffer| > 1 ==>
      InsertAll(InsertAll(names0, FlushedNames(cleared)), RefNames(buffer)) == InsertAll(names0, FlushedNames(cleared + [buffer]))
    ensures |buffer| <= 1 ==> FlushedNames(cleared + [buffer]) == FlushedNames(cleared)
  {
    FlushedAppend(cleared, buffer);
    if |buffer| > 1 {
      var c := Concat(Flushed(cleared));
      ConcatAppend(Flushed(cleared), buffer);
      RefNamesAppend(c, buffer);
      InsertAllAppend(names0, RefNames(c), RefNames(buffer));
    }
  }

  lemma RefNamesAppend(a: seq<SamElement>, b: seq<SamElement>)
    ensures RefNames(a + b) == RefNames(a) + RefNames(b)
  {
    assert forall k | 0 <= k < |a + b| :: RefNames(a + b)[k] == (RefNames(a) + RefNames(b))[k];
  }

  /** The flush check of the callback: a buffer of more than one record goes to update_contact_map. */
  method FlushBuffer(buffer: seq<SamElement>, graph: ContactGraph, idMap: IncrementalIdMap,
                     ghost g0: Graph, ghost ids0: map<string, int>, ghost names0: seq<string>, ghost cleared: seq<seq<SamElement>>)
    requires graph.Valid() && idMap.Valid()
    requires Extends(ids0, idMap.ids) && RefsKnown(Flushed(cleared), idMap.ids)
    requires idMap.names == InsertAll(names0, FlushedNames(cleared))
    requires graph.Model() == FlushAll(g0, idMap.ids, Flushed(cleared))
    modifies graph, idMap
    ensures graph.Valid() && idMap.Valid()
    ensures Extends(ids0, idMap.ids) && RefsKnown(Flushed(cleared + [buffer]), idMap.ids)
    ensures idMap.names == InsertAll(names0, FlushedNames(cleared + [buffer]))
    ensures graph.Model() == FlushAll(g0, idMap.ids, Flushed(cleared + [buffer]))
  {
    ghost var ids, g := idMap.ids, graph.Model();
    if |buffer| > 1 {
      UpdateContactMap(buffer, graph, idMap);
    }
    FlushStep(g0, ids0, ids, idMap.ids, cleared, buffer, g, graph.Model());
    FlushedNamesAppend(names0, cleared, buffer);
  }

  /** The callback of parse_unpaired_bam_file with the variables it captures. */
  class UnpairedBamParser {
    var l: nat
    var prevQueryName: string
    var alignments: seq<SamElement>
    ghost var cleared: seq<seq<SamElement>>
    const graph: ContactGraph
    const idMap: IncrementalIdMap
    const requiredPrefix: string
    const minMapq: int
    ghost const graph0: Graph
    ghost const ids0: map<string, int>
    ghost const names0: seq<string>

    ghost function State(): Scan
      reads this
    {
      Scan(l, prevQueryName, alignments, cleared)
    }

    /** The graph holds the contacts, and the id map the reference names, of every buffer handed on so far. */
    ghost predicate Valid()
      reads this, graph, idMap
    {
      && graph.Valid() && idMap.Valid()
      && Extends(ids0, idMap.ids)
      && RefsKnown(Flushed(cleared), idMap.ids)
      && idMap.names == InsertAll(names0, FlushedNames(cleared))
      && graph.Model() == FlushAll(graph0, idMap.ids, Flushed(cleared))
    }

    constructor (graph: ContactGraph, idMap: IncrementalIdMap, requiredPrefix: string, minMapq: int)
      requires graph.Valid() && idMap.Valid()
      ensures this.graph == graph && this.idMap == idMap
      ensures this.requiredPrefix == requiredPrefix && this.minMapq == minMapq
      ensures graph0 == graph.Model() && ids0 == idMap.ids && names0 == idMap.names
      ensures Valid() && State() == Scan(0, "", [], [])
    {
      l, prevQueryName, alignments, cleared := 0, "", [], [];
      this.graph, this.idMap := graph, idMap;
      this.requiredPrefix, this.minMapq := requiredPrefix, minMapq;
      graph0, ids0, names0 := graph.Model(), idMap.ids, idMap.names;
    }

    /** Closes the current buffer, handing it to update_contact_map when it holds more than one record. */
    method ClearBuffer()
      requires Valid()
      modifies this, graph, idMap
      ensures Valid()
      ensures l == old(l) && prevQueryName == old(prevQueryName)
      ensures alignments == [] && cleared == old(cleared) + [old(alignments)]
    {
      FlushBuffer(alignments, graph, idMap, graph0, ids0, names0, cleared);
      cleared := cleared + [alignments];
      alignments := [];
    }

    /** The callback up to the reference check: a change of query name closes the buffer. */
    method BeginRecord(a: SamElement)
      requires Valid()
      modifies this, graph, idMap
      ensures Valid() && State() == Begin(old(State()), a)
    {
      if l == 0 {
        prevQueryName := a.queryName;
      }
      if prevQueryName != a.queryName {
        ClearBuffer();
      }
    }

    /** The rest of the callback: the reference, prefix, mapq and primary checks, then the counters. */
    method FilterRecord(a: SamElement)
      requires Valid()
      modifies this
      ensures Valid() && State() == Keep(old(State()), a, requiredPrefix, minMapq)
    {
      if a.refName == [] {
        return;
      }
      var validPrefix := HasRequiredPrefix(a.refName, requiredPrefix);
      if validPrefix {
        if a.mapq >= minMapq && a.isPrimary {
          alignments := alignments + [a];
        }
      }
      l := l + 1;
      prevQueryName := a.queryName;
    }

    /** The callback for one record `a`. */
    method OnAlignment(a: SamElement)
      requires Valid()
      modifies this, graph, idMap
      ensures Valid() && State() == Step(old(State()), a, requiredPrefix, minMapq)
    {
      BeginRecord(a);
      FilterRecord(a);
    }
  }

  /** for_alignment_in_bam: the callback on every record of the stream, in order. */
  method ScanRecords(parser: UnpairedBamParser, records: seq<SamElement>)
    requires parser.Valid() && parser.State() == Scan(0, "", [], [])
    modifies parser, parser.graph, parser.idMap
    ensures parser.Valid() && parser.State() == ScanAll(records, parser.requiredPrefix, parser.minMapq)
  {
    var k := 0;
    while k < |records|
      invariant 0 <= k <= |records|
      invariant parser.Valid() && parser.State() == ScanAll(records[..k], parser.requiredPrefix, parser.minMapq)
    {
      assert records[..k + 1][..k] == records[..k];
      parser.OnAlignment(records[k]);
      k := k + 1;
    }
    assert records[..k] == records;
  }

  /**
   * parse_unpaired_bam_file as written: the graph gains the contacts of
   * every group handed on before the stream ends; the final buffer is
   * left as it is.
   */
  method ParseUnpairedBam(records: seq<SamElement>, g: ContactGraph, idMap: IncrementalIdMap, requiredPrefix: string, minMapq: int)
    requires g.Valid() && idMap.Valid()
    modifies g, idMap
    ensures g.Valid() && idMap.Valid() && Extends(old(idMap.ids), idMap.ids)
    ensures idMap.names == InsertAll(old(idMap.names), FlushedNames(ScanAll(records, requiredPrefix, minMapq).cleared))
    ensures RefsKnown(Flushed(ScanAll(records, requiredPrefix, minMapq).cleared), idMap.ids)
    ensures g.Model() == FlushAll(old(g.Model()), idMap.ids, Flushed(ScanAll(records, requiredPrefix, minMapq).cleared))
  {
    var parser := new UnpairedBamParser(g, idMap, requiredPrefix, minMapq);
    ScanRecords(parser, records);
  }

  /** parse_unpaired_bam_file with the final buffer handed on like every other. */
  method ParseUnpairedBamFlushingLast(records: seq<SamElement>, g: ContactGraph, idMap: IncrementalIdMap, requiredPrefix: string, minMapq: int)
    requires g.Valid() && idMap.Valid()
    modifies g, idMap
    ensures g.Valid() && idMap.Valid() && Extends(old(idMap.ids), idMap.ids)
    ensures idMap.names == InsertAll(old(idMap.names), FlushedNames(Groups(records, requiredPrefix, minMapq)))
    ensures RefsKnown(Flushed(Groups(records, requiredPrefix, minMapq)), idMap.ids)
    ensures g.Model() == FlushAll(old(g.Model()), idMap.ids, Flushed(Groups(records, requiredPrefix, minMapq)))
  {
    var parser := new UnpairedBamParser(g, idMap, requiredPrefix, minMapq);
    ScanRecords(parser, records);
    parser.ClearBuffer();
  }
}
