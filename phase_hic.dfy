/**
 * phase_hic (phase_contacts_as_tripartition): contig ids from the GFA, the
 * extension check on the alignment file, the contact map from the BAM
 * records, and alt flags on contigs the overlap finder pairs up.
 *
 * The GFA and BAM readers and the minimizer overlap finder are inputs:
 * the GFA's sequence names, the BAM records and the symmetric overlaps.
 */
module HicPhasing {
  import opened ContactGraphs
  import opened IdMaps
  import opened HicContacts
  import opened HicParse
  import opened AltLinks

  /** The last position of `c` in `s`, or -1 when there is none. */
  function LastIndexOf(s: string, c: char): (r: int)
    ensures -1 <= r < |s|
    ensures r == -1 <==> c !in s
    ensures r >= 0 ==> s[r] == c && c !in s[r + 1..]
    decreases |s|
  {
    if s == [] then -1
    else if s[|s| - 1] == c then |s| - 1
    else
      var r := LastIndexOf(s[..|s| - 1], c);
      assert s == s[..|s| - 1] + [s[|s| - 1]];
      assert r >= 0 ==> s[r + 1..] == s[..|s| - 1][r + 1..] + [s[|s| - 1]];
      r
  }

  /** path::filename: what follows the last separator. */
  function FileName(p: string): (f: string)
    ensures '/' !in f
    ensures |f| <= |p| && p[|p| - |f|..] == f
    ensures |f| < |p| ==> p[|p| - |f| - 1] == '/'
  {
    p[LastIndexOf(p, '/') + 1..]
  }

  /**
   * path::extension: the file name from its last period on, except that a
   * period that starts the name does not count and "." and ".." have none.
   */
  function Extension(p: string): string
  {
    NameExtension(FileName(p))
  }

  /** The extension of a file name. */
  function NameExtension(f: string): string
  {
    if f == "." || f == ".." then ""
    else
      var i := LastIndexOf(f, '.');
      if i <= 0 then "" else f[i..]
  }

  /** A period with no period after it is the last one. */
  lemma LastPeriod(f: string, j: nat)
    requires j < |f| && f[j] == '.' && '.' !in f[j + 1..]
    ensures LastIndexOf(f, '.') == j
  {
    assert f[j] in f;
    var i := LastIndexOf(f, '.');
    assert i >= j;
    assert f[i] == '.';
  }

  /** A ".bam" extension means a file name of more than four characters ending in ".bam". */
  lemma BamExtensionEnding(f: string)
    requires NameExtension(f) == ".bam"
    ensures |f| > 4 && f[|f| - 4..] == ".bam"
  {
    var i := LastIndexOf(f, '.');
    assert i > 0 && f[i..] == ".bam";
  }

  /** A file name of more than four characters ending in ".bam" has the ".bam" extension. */
  lemma BamEndingExtension(f: string)
    requires |f| > 4 && f[|f| - 4..] == ".bam"
    ensures NameExtension(f) == ".bam"
  {
    var j := |f| - 4;
    var ext := f[j..];
    assert f[j] == ext[0] == '.';
    assert f[j + 1..] == ext[1..] == "bam";
    LastPeriod(f, j);
    assert f != "." && f != "..";
  }

  /** The alignment file is parsed exactly when its file name ends in ".bam" after at least one other character. */
  lemma ExtensionIsBam(p: string)
    ensures Extension(p) == ".bam" <==> |FileName(p)| > 4 && FileName(p)[|FileName(p)| - 4..] == ".bam"
  {
    var f := FileName(p);
    if NameExtension(f) == ".bam" {
      BamExtensionEnding(f);
    }
    if |f| > 4 && f[|f| - 4..] == ".bam" {
      BamEndingExtension(f);
    }
  }

  /**
   * The graph phase_hic builds from the groups the parser hands to
   * update_contact_map and from the overlaps, every name taking its id
   * from `ids`.
   */
  ghost function PhasedGraph(groups: seq<seq<SamElement>>, overlaps: map<string, string>, ids: map<string, int>): Graph
    requires RefsKnown(groups, ids)
    requires forall a | a in overlaps :: a in ids && overlaps[a] in ids
  {
    var contacts := FlushAll(Graph(map[], map[], []), ids, groups);
    contacts.(nodes := AltLinked(contacts.nodes, overlaps, ids))
  }

  /** The alt-link loop on the contact graph the parser left: the result is PhasedGraph. */
  method LinkAlts(ghost groups: seq<seq<SamElement>>, overlaps: map<string, string>, g: ContactGraph, idMap: IncrementalIdMap)
    requires g.Valid() && idMap.Valid() && RefsKnown(groups, idMap.ids)
    requires forall a | a in overlaps :: a in idMap.ids && overlaps[a] in idMap.ids
    requires g.Model() == FlushAll(Graph(map[], map[], []), idMap.ids, groups)
    modifies g
    ensures g.Valid() && g.Model() == PhasedGraph(groups, overlaps, idMap.ids)
  {
    AddAltLinks(overlaps, g, idMap);
  }

  /**
   * phase_hic up to the output files, as written: an alignment file without
   * the ".bam" extension is refused before anything is parsed; otherwise the
   * contact graph of the groups parse_unpaired_bam_file hands on (never the
   * last one), with alt flags from the overlaps.
   */
  method PhaseHic(samPath: string, sequenceNames: seq<string>, records: seq<SamElement>, overlaps: map<string, string>,
                  requiredPrefix: string, minMapq: int)
    returns (ok: bool, g: ContactGraph, idMap: IncrementalIdMap)
    requires forall a | a in overlaps :: a in sequenceNames && overlaps[a] in sequenceNames
    ensures ok <==> Extension(samPath) == ".bam"
    ensures g.Valid() && idMap.Valid()
    ensures forall n | n in sequenceNames :: n in idMap.ids
    ensures !ok ==> g.Model() == Graph(map[], map[], []) && idMap.names == InsertAll([], sequenceNames)
    ensures var groups := Flushed(ScanAll(records, requiredPrefix, minMapq).cleared);
            ok ==> && idMap.names == InsertAll(InsertAll([], sequenceNames), FlushedNames(ScanAll(records, requiredPrefix, minMapq).cleared))
                   && RefsKnown(groups, idMap.ids)
                   && g.Model() == PhasedGraph(groups, overlaps, idMap.ids)
  {
    idMap := LoadSequenceNames(sequenceNames);
    g := new ContactGraph();
    assert idMap.Valid();
    ok := Extension(samPath) == ".bam";
    if !ok {
      return;
    }
    ghost var ids := idMap.ids;
    ParseUnpairedBam(records, g, idMap, requiredPrefix, minMapq);
    assert forall n | n in ids :: n in idMap.ids;
    LinkAlts(Flushed(ScanAll(records, requiredPrefix, minMapq).cleared), overlaps, g, idMap);
  }

  /** phase_hic with the corrected parser, which hands on the last group too. */
  method PhaseHicFlushingLast(samPath: string, sequenceNames: seq<string>, records: seq<SamElement>, overlaps: map<string, string>,
                              requiredPrefix: string, minMapq: int)
    returns (ok: bool, g: ContactGraph, idMap: IncrementalIdMap)
    requires forall a | a in overlaps :: a in sequenceNames && overlaps[a] in sequenceNames
    ensures ok <==> Extension(samPath) == ".bam"
    ensures g.Valid() && idMap.Valid()
    ensures forall n | n in sequenceNames :: n in idMap.ids
    ensures !ok ==> g.Model() == Graph(map[], map[], []) && idMap.names == InsertAll([], sequenceNames)
    ensures var groups := Flushed(Groups(records, requiredPrefix, minMapq));
            ok ==> && idMap.names == InsertAll(InsertAll([], sequenceNames), FlushedNames(Groups(records, requiredPrefix, minMapq)))
                   && RefsKnown(groups, idMap.ids)
                   && g.Model() == PhasedGraph(groups, overlaps, idMap.ids)
  {
    idMap := LoadSequenceNames(sequenceNames);
    g := new ContactGraph();
    assert idMap.Valid();
    ok := Extension(samPath) == ".bam";
    if !ok {
      return;
    }
    ghost var ids := idMap.ids;
    ParseUnpairedBamFlushingLast(records, g, idMap, requiredPrefix, minMapq);
    assert forall n | n in ids :: n in idMap.ids;
    LinkAlts(Flushed(Groups(records, requiredPrefix, minMapq)), overlaps, g, idMap);
  }
}
