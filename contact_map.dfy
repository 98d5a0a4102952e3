/**
 * Hi-C contact accumulation (phase_contacts_as_tripartition): alignments of
 * one read are grouped, every pair of alignments in a group adds one
 * contact between the two reference contigs, and overlapping contigs that
 * both carry contacts are flagged as alts.
 */
module HicContacts {
  import opened ContactGraphs
  import opened IdMaps

  /** The fields of an unpaired BAM record the parser reads. */
  datatype SamElement = SamElement(queryName: string, refName: string, mapq: int, isPrimary: bool)

  /** The weight of `e`, counting a missing edge as 0. */
  function Weight(w: map<Edge, int>, e: Edge): int
  {
    if e in w then w[e] else 0
  }

  /**
   * One contact per listed edge, in order: try_insert_edge with weight 0,
   * then increment_edge_weight by 1.
   */
  function AddContacts(g: Graph, es: seq<Edge>): Graph
    decreases |es|
  {
    if es == [] then g
    else
      var e := es[|es| - 1];
      AddContacts(g, es[..|es| - 1]).InsertEdge(e.lo, e.hi, 0).IncrementWeight(e.lo, e.hi, 1)
  }

  /** Each listed edge gains one unit of weight per occurrence; nothing else changes. */
  lemma {:induction false} AddContactsWeights(g: Graph, es: seq<Edge>)
    requires forall e | e in es :: e.lo <= e.hi
    ensures AddContacts(g, es).nodes == g.nodes
    ensures forall e :: e in AddContacts(g, es).weights <==> e in g.weights || e in es
    ensures forall e :: Weight(AddContacts(g, es).weights, e) == Weight(g.weights, e) + multiset(es)[e]
    decreases |es|
  {
    if es != [] {
      var e := es[|es| - 1];
      assert es == es[..|es| - 1] + [e];
      AddContactsWeights(g, es[..|es| - 1]);
      assert Key(e.lo, e.hi) == e;
    }
  }

  /** Contacts touch only edges. */
  lemma {:induction false} AddContactsNodes(g: Graph, es: seq<Edge>)
    ensures AddContacts(g, es).nodes == g.nodes
    decreases |es|
  {
    if es != [] {
      AddContactsNodes(g, es[..|es| - 1]);
    }
  }

  /** Contacts between nodes of a valid graph keep it valid. */
  lemma {:induction false} AddContactsValid(g: Graph, es: seq<Edge>)
    requires g.Valid()
    requires forall e | e in es :: e.lo <= e.hi && e.lo in g.nodes && e.hi in g.nodes
    ensures AddContacts(g, es).Valid()
    decreases |es|
  {
    if es != [] {
      var e := es[|es| - 1];
      AddContactsValid(g, es[..|es| - 1]);
      AddContactsWeights(g, es[..|es| - 1]);
    }
  }

  /** try_insert_node(id, 0) for each id in turn. */
  function InsertNodesAll(g: Graph, ids: seq<int>): Graph
    decreases |ids|
  {
    if ids == [] then g else InsertNodesAll(g, ids[..|ids| - 1]).InsertNode(ids[|ids| - 1], 0)
  }

  /** The listed ids become nodes with coverage 0; existing nodes and all edges stay as they were. */
  lemma {:induction false} InsertNodesAllFacts(g: Graph, ids: seq<int>)
    ensures InsertNodesAll(g, ids).weights == g.weights && InsertNodesAll(g, ids).order == g.order
    ensures forall n :: n in InsertNodesAll(g, ids).nodes <==> n in g.nodes || n in ids
    ensures forall n | n in g.nodes :: InsertNodesAll(g, ids).nodes[n] == g.nodes[n]
    ensures forall n | n in InsertNodesAll(g, ids).nodes && n !in g.nodes :: InsertNodesAll(g, ids).nodes[n] == Node(0, 0, false)
    decreases |ids|
  {
    if ids != [] {
      InsertNodesAllFacts(g, ids[..|ids| - 1]);
      assert ids == ids[..|ids| - 1] + [ids[|ids| - 1]];
    }
  }

  /** A node insertion commutes with one contact. */
  lemma InsertNodeCommutesOne(g: Graph, e: Edge, id: int)
    ensures g.InsertEdge(e.lo, e.hi, 0).IncrementWeight(e.lo, e.hi, 1).InsertNode(id, 0)
         == g.InsertNode(id, 0).InsertEdge(e.lo, e.hi, 0).IncrementWeight(e.lo, e.hi, 1)
  {
  }

  /** A node insertion commutes with contacts, which touch only edges. */
  lemma {:induction false} InsertNodeCommutes(g: Graph, es: seq<Edge>, id: int)
    ensures AddContacts(g, es).InsertNode(id, 0) == AddContacts(g.InsertNode(id, 0), es)
    decreases |es|
  {
    if es != [] {
      var e, rest := es[|es| - 1], es[..|es| - 1];
      InsertNodeCommutes(g, rest, id);
      InsertNodeCommutesOne(AddContacts(g, rest), e, id);
    }
  }

  /** The contacts of row i restricted to columns i+1 .. j-1. */
  function RowPairs(ids: seq<int>, i: nat, j: nat): (r: seq<Edge>)
    requires i < j <= |ids|
    ensures |r| == j - i - 1
    ensures forall k | 0 <= k < |r| :: r[k] == Key(ids[i], ids[i + 1 + k])
    ensures forall e | e in r :: e.lo <= e.hi
  {
    seq(j - i - 1, k requires 0 <= k < j - i - 1 => Key(ids[i], ids[i + 1 + k]))
  }

  /** The contacts of the first `rows` rows of the upper triangle, row by row. */
  function Pairs(ids: seq<int>, rows: nat): (r: seq<Edge>)
    requires rows <= |ids|
    ensures forall e | e in r :: e.lo <= e.hi
  {
    if rows == 0 then [] else Pairs(ids, rows - 1) + RowPairs(ids, rows - 1, |ids|)
  }

  /** The contacts update_contact_map adds for a group whose references have ids `ids`. */
  function ContactPairs(ids: seq<int>): seq<Edge>
  {
    Pairs(ids, |ids|)
  }

  /** Row r of an n-by-n upper triangle adds n - r cells to the r - 1 rows before it. */
  lemma TriangleStep(n: int, r: int, before: int)
    requires 2 * before == (r - 1) * (2 * n - (r - 1) - 1)
    ensures 2 * (before + (n - r)) == r * (2 * n - r - 1)
  {
    var m := 2 * n - r;
    assert (r - 1) * m == r * m - m;
    assert r * m - r == r * (m - 1);
  }

  lemma {:induction false} PairsCount(ids: seq<int>, rows: nat)
    requires rows <= |ids|
    ensures 2 * |Pairs(ids, rows)| == rows * (2 * |ids| - rows - 1)
  {
    if rows > 0 {
      PairsCount(ids, rows - 1);
      assert |Pairs(ids, rows)| == |Pairs(ids, rows - 1)| + (|ids| - rows);
      TriangleStep(|ids|, rows, |Pairs(ids, rows - 1)|);
    }
  }

  /** A group of n alignments adds exactly n(n-1)/2 contacts. */
  lemma ContactPairsCount(ids: seq<int>)
    ensures |ContactPairs(ids)| == |ids| * (|ids| - 1) / 2
  {
    PairsCount(ids, |ids|);
  }

  /** Every contact of the first `rows` rows comes from a pair of positions i < j. */
  lemma {:induction false} PairOfContact(ids: seq<int>, rows: nat, e: Edge) returns (i: nat, j: nat)
    requires rows <= |ids| && e in Pairs(ids, rows)
    ensures i < rows && i < j < |ids| && Key(ids[i], ids[j]) == e
  {
    var row := RowPairs(ids, rows - 1, |ids|);
    if e in Pairs(ids, rows - 1) {
      i, j := PairOfContact(ids, rows - 1, e);
    } else {
      var k :| 0 <= k < |row| && row[k] == e;
      i, j := rows - 1, rows + k;
    }
  }

  /** Every pair of positions i < j in the first `rows` rows is a contact. */
  lemma {:induction false} ContactOfPair(ids: seq<int>, rows: nat, i: nat, j: nat)
    requires rows <= |ids| && i < rows && i < j < |ids|
    ensures Key(ids[i], ids[j]) in Pairs(ids, rows)
  {
    if i < rows - 1 {
      ContactOfPair(ids, rows - 1, i, j);
    } else {
      assert RowPairs(ids, rows - 1, |ids|)[j - rows] == Key(ids[i], ids[j]);
    }
  }

  /** Exactly the pairs of positions i < j contribute, including two alignments to one reference. */
  lemma ContactPairsMembership(ids: seq<int>, e: Edge)
    ensures e in ContactPairs(ids) <==> exists i, j | 0 <= i < j < |ids| :: Key(ids[i], ids[j]) == e
  {
    if e in ContactPairs(ids) {
      var i, j := PairOfContact(ids, |ids|, e);
    }
    if exists i, j | 0 <= i < j < |ids| :: Key(ids[i], ids[j]) == e {
      var i, j :| 0 <= i < j < |ids| && Key(ids[i], ids[j]) == e;
      ContactOfPair(ids, |ids|, i, j);
    }
  }

  /** The calls for one pair are the contact of its key. */
  lemma ContactStep(g: Graph, es: seq<Edge>, a: int, b: int)
    requires forall e | e in es :: e.lo <= e.hi
    ensures AddContacts(g, es).InsertEdge(a, b, 0).IncrementWeight(a, b, 1) == AddContacts(g, es + [Key(a, b)])
  {
    var e := Key(a, b);
    assert (es + [e])[..|es + [e]| - 1] == es;
    assert Key(e.lo, e.hi) == e;
  }

  /** The graph after update_contact_map on a group whose references have ids `ids`. */
  ghost function ContactSpec(g: Graph, ids: seq<int>): Graph
  {
    AddContacts(InsertNodesAll(g, ids), ContactPairs(ids))
  }

  function RefNames(alignments: seq<SamElement>): (r: seq<string>)
    ensures |r| == |alignments|
    ensures forall k | 0 <= k < |r| :: r[k] == alignments[k].refName
  {
    seq(|alignments|, k requires 0 <= k < |alignments| => alignments[k].refName)
  }

  function IdsOf(ids: map<string, int>, names: seq<string>): (r: seq<int>)
    requires forall k | 0 <= k < |names| :: names[k] in ids
    ensures |r| == |names|
    ensures forall k | 0 <= k < |r| :: r[k] == ids[names[k]]
  {
    seq(|names|, k requires 0 <= k < |names| => ids[names[k]])
  }

  /** The graph update_contact_map has built after `rows` full rows and `cols` columns of the next. */
  ghost function Partial(g0: Graph, known: seq<int>, row: nat, col: nat): Graph
    requires row < col <= |known|
  {
    AddContacts(InsertNodesAll(g0, known), Pairs(known, row) + RowPairs(known, row, col))
  }

  /** The ids already inserted stay nodes while contacts are added. */
  lemma KnownAreNodes(g0: Graph, known: seq<int>, es: seq<Edge>)
    ensures forall k | 0 <= k < |known| :: known[k] in AddContacts(InsertNodesAll(g0, known), es).nodes
  {
    forall k | 0 <= k < |known|
      ensures known[k] in InsertNodesAll(g0, known).nodes
    {
      InsertedIsNode(g0, known, k);
    }
    AddContactsNodes(InsertNodesAll(g0, known), es);
  }

  lemma {:induction false} InsertedIsNode(g0: Graph, ids: seq<int>, k: nat)
    requires k < |ids|
    ensures ids[k] in InsertNodesAll(g0, ids).nodes
    decreases |ids|
  {
    if k < |ids| - 1 {
      InsertedIsNode(g0, ids[..|ids| - 1], k);
    }
  }

  /**
   * try_insert_node for column j: in row 0 it inserts the next reference
   * (the ids seen grow by one), in later rows it is a no-op.
   */
  lemma RowNode(g0: Graph, known: seq<int>, known2: seq<int>, i: nat, j: nat, id: int)
    requires i < j <= |known|
    requires (i == 0 && j == |known| && known2 == known + [id]) || (i > 0 && known2 == known && j < |known| && known[j] == id)
    ensures Partial(g0, known, i, j).InsertNode(id, 0) == Partial(g0, known2, i, j)
  {
    var es := Pairs(known, i) + RowPairs(known, i, j);
    if i == 0 {
      InsertNodeCommutes(InsertNodesAll(g0, known), es, id);
      assert known2[..|known|] == known;
      assert RowPairs(known2, i, j) == RowPairs(known, i, j);
    } else {
      KnownAreNodes(g0, known, es);
    }
  }

  /** try_insert_edge and increment_edge_weight for column j extend the row by one contact. */
  lemma RowEdge(g0: Graph, known: seq<int>, i: nat, j: nat)
    requires i < j < |known|
    ensures known[i] in Partial(g0, known, i, j).nodes && known[j] in Partial(g0, known, i, j).nodes
    ensures Partial(g0, known, i, j).InsertEdge(known[i], known[j], 0).IncrementWeight(known[i], known[j], 1) == Partial(g0, known, i, j + 1)
  {
    var es := Pairs(known, i) + RowPairs(known, i, j);
    KnownAreNodes(g0, known, es);
    ContactStep(InsertNodesAll(g0, known), es, known[i], known[j]);
    assert RowPairs(known, i, j + 1) == RowPairs(known, i, j) + [Key(known[i], known[j])];
    assert Pairs(known, i) + RowPairs(known, i, j + 1) == es + [Key(known[i], known[j])];
  }

  /** Row 0 starts with the first reference as a node; later rows start where the previous ended. */
  /** The graph update_contact_map has built after `rows` full rows. */
  ghost function Done(g0: Graph, known: seq<int>, rows: nat): Graph
    requires rows <= |known|
  {
    AddContacts(InsertNodesAll(g0, known), Pairs(known, rows))
  }

  /** A later row starts from the graph of the rows before it. */
  lemma RowStart(g0: Graph, known: seq<int>, i: nat)
    requires i < |known|
    ensures Partial(g0, known, i, i + 1) == Done(g0, known, i)
  {
    assert RowPairs(known, i, i + 1) == [];
    assert Pairs(known, i) + [] == Pairs(known, i);
  }

  /** A finished row is one more full row. */
  lemma RowEnd(g0: Graph, known: seq<int>, i: nat)
    requires i < |known|
    ensures Partial(g0, known, i, |known|) == Done(g0, known, i + 1)
  {
  }

  /** Row 0 starts with the first reference as the only new node. */
  lemma FirstNode(g0: Graph, id: int)
    ensures g0.InsertNode(id, 0) == Partial(g0, [id], 0, 1)
  {
    assert [id][..0] == [];
    assert Pairs([id], 0) + RowPairs([id], 0, 1) == [];
    assert InsertNodesAll(g0, [id]) == g0.InsertNode(id, 0);
  }

  lemma FullSlice<T>(s: seq<T>, n: nat)
    requires n == 0 || n == |s|
    ensures s[..n] == if n == 0 then [] else s
  {
  }

  /** The ids of the first |known| references, as the id map assigned them. */
  ghost predicate IdsAgree(refs: seq<string>, ids: map<string, int>, known: seq<int>)
  {
    |known| <= |refs| && forall k | 0 <= k < |known| :: refs[k] in ids && ids[refs[k]] == known[k]
  }

  /** Ids once assigned never change, so ids that agreed still agree, and the next reference's id joins them. */
  lemma AgreeAfterInsert(refs: seq<string>, ids: map<string, int>, ids': map<string, int>, known: seq<int>, j: nat)
    requires IdsAgree(refs, ids, known) && Extends(ids, ids')
    requires j < |refs| && refs[j] in ids'
    ensures IdsAgree(refs, ids', known)
    ensures j == |known| ==> IdsAgree(refs, ids', known + [ids'[refs[j]]])
    ensures j < |known| ==> ids'[refs[j]] == known[j]
  {
    if j == |known| {
      var known' := known + [ids'[refs[j]]];
      forall k | 0 <= k < |known'|
        ensures refs[k] in ids' && ids'[refs[k]] == known'[k]
      {
        if k < |known| {
          assert refs[k] in ids;
        }
      }
    }
  }

  /** Inserting the next reference extends the names by that reference. */
  lemma NamesAfterInsert(names0: seq<string>, refs: seq<string>, names: seq<string>, names': seq<string>, k: nat)
    requires k < |refs| && names == InsertAll(names0, refs[..k]) && names' == InsertAll(names, [refs[k]])
    ensures names' == InsertAll(names0, refs[..k + 1])
  {
    InsertAllAppend(names0, refs[..k], [refs[k]]);
    assert refs[..k] + [refs[k]] == refs[..k + 1];
  }

  /**
   * One pass of the inner loop of update_contact_map: the alignment j gets
   * an id and a node, and the pair (i, j) adds one contact.
   */
  method ContactPair(alignments: seq<SamElement>, i: nat, j: nat, idA: int, g: ContactGraph, idMap: IncrementalIdMap,
                     ghost g0: Graph, ghost names0: seq<string>, ghost ids0: map<string, int>, ghost known: seq<int>)
    returns (ghost known': seq<int>)
    requires i < j < |alignments| && g.Valid() && idMap.Valid()
    requires |known| == if i == 0 then j else |alignments|
    requires IdsAgree(RefNames(alignments), idMap.ids, known) && known[i] == idA
    requires idMap.names == InsertAll(names0, RefNames(alignments)[..|known|]) && Extends(ids0, idMap.ids)
    requires g.Model() == Partial(g0, known, i, j)
    modifies g, idMap
    ensures g.Valid() && idMap.Valid()
    ensures |known'| == (if i == 0 then j + 1 else |alignments|)
    ensures IdsAgree(RefNames(alignments), idMap.ids, known') && known'[i] == idA
    ensures idMap.names == InsertAll(names0, RefNames(alignments)[..|known'|]) && Extends(ids0, idMap.ids)
    ensures g.Model() == Partial(g0, known', i, j + 1)
  {
    var idB;
    idB, known' := PairId(alignments, i, j, idMap, names0, ids0, known);
    PairEdge(i, j, idA, idB, g, g0, known, known');
  }

  /** The reference of alignment j gets its id; in row 0 that id is new to `known`. */
  method PairId(alignments: seq<SamElement>, i: nat, j: nat, idMap: IncrementalIdMap,
                ghost names0: seq<string>, ghost ids0: map<string, int>, ghost known: seq<int>)
    returns (idB: int, ghost known': seq<int>)
    requires i < j < |alignments| && idMap.Valid()
    requires |known| == if i == 0 then j else |alignments|
    requires IdsAgree(RefNames(alignments), idMap.ids, known)
    requires idMap.names == InsertAll(names0, RefNames(alignments)[..|known|]) && Extends(ids0, idMap.ids)
    modifies idMap
    ensures idMap.Valid()
    ensures (i == 0 && known' == known + [idB]) || (i > 0 && known' == known && known[j] == idB)
    ensures IdsAgree(RefNames(alignments), idMap.ids, known')
    ensures idMap.names == InsertAll(names0, RefNames(alignments)[..|known'|]) && Extends(ids0, idMap.ids)
  {
    ghost var refs := RefNames(alignments);
    ghost var ids, names := idMap.ids, idMap.names;
    idB := idMap.TryInsert(alignments[j].refName);
    AgreeAfterInsert(refs, ids, idMap.ids, known, j);
    known' := if i == 0 then known + [idB] else known;
    if i == 0 {
      NamesAfterInsert(names0, refs, names, idMap.names, j);
    } else {
      assert idMap.names == names;
    }
  }

  /** The node of alignment j, then one more contact on the pair (i, j). */
  method PairEdge(i: nat, j: nat, idA: int, idB: int, g: ContactGraph, ghost g0: Graph, ghost known: seq<int>, ghost known': seq<int>)
    requires i < j <= |known| && known[i] == idA && g.Valid()
    requires (i == 0 && j == |known| && known' == known + [idB]) || (i > 0 && known' == known && j < |known| && known[j] == idB)
    requires g.Model() == Partial(g0, known, i, j)
    modifies g
    ensures g.Valid() && g.Model() == Partial(g0, known', i, j + 1)
  {
    RowNode(g0, known, known', i, j, idB);
    g.TryInsertNode(idB, 0);
    assert known'[i] == idA && known'[j] == idB;
    RowEdge(g0, known', i, j);
    g.TryInsertEdge(idA, idB, 0);
    g.IncrementEdgeWeight(idA, idB, 1);
  }

  /** The inner loop of update_contact_map for row i. In row 0 it is where the references after the first get their ids. */
  method ContactRow(alignments: seq<SamElement>, i: nat, idA: int, g: ContactGraph, idMap: IncrementalIdMap,
                    ghost g0: Graph, ghost names0: seq<string>, ghost ids0: map<string, int>, ghost known: seq<int>)
    returns (ghost known': seq<int>)
    requires i < |alignments| && g.Valid() && idMap.Valid()
    requires |known| == if i == 0 then 1 else |alignments|
    requires IdsAgree(RefNames(alignments), idMap.ids, known) && known[i] == idA
    requires idMap.names == InsertAll(names0, RefNames(alignments)[..|known|]) && Extends(ids0, idMap.ids)
    requires g.Model() == Partial(g0, known, i, i + 1)
    modifies g, idMap
    ensures g.Valid() && idMap.Valid()
    ensures |known'| == |alignments| && IdsAgree(RefNames(alignments), idMap.ids, known')
    ensures idMap.names == InsertAll(names0, RefNames(alignments)) && Extends(ids0, idMap.ids)
    ensures g.Model() == Partial(g0, known', i, |alignments|)
  {
    known' := known;
    var n := |alignments|;
    var j := i + 1;
    while j < n
      invariant i + 1 <= j <= n
      invariant g.Valid() && idMap.Valid()
      invariant |known'| == if i == 0 then j else n
      invariant IdsAgree(RefNames(alignments), idMap.ids, known') && known'[i] == idA
      invariant idMap.names == InsertAll(names0, RefNames(alignments)[..|known'|]) && Extends(ids0, idMap.ids)
      invariant g.Model() == Partial(g0, known', i, j)
    {
      known' := ContactPair(alignments, i, j, idA, g, idMap, g0, names0, ids0, known');
      j := j + 1;
    }
    FullSlice(RefNames(alignments), |known'|);
  }

  /**
   * The head of row i of update_contact_map: alignment i gets an id and a
   * node. In row 0 this is the first id of the group; later rows find it
   * already there.
   */
  method RowHead(alignments: seq<SamElement>, i: nat, g: ContactGraph, idMap: IncrementalIdMap,
                 ghost g0: Graph, ghost names0: seq<string>, ghost ids0: map<string, int>, ghost known: seq<int>)
    returns (idA: int, ghost known': seq<int>)
    requires i < |alignments| && g.Valid() && idMap.Valid()
    requires |known| == if i == 0 then 0 else |alignments|
    requires IdsAgree(RefNames(alignments), idMap.ids, known)
    requires idMap.names == InsertAll(names0, RefNames(alignments)[..|known|]) && Extends(ids0, idMap.ids)
    requires g.Model() == Done(g0, known, i)
    modifies g, idMap
    ensures g.Valid() && idMap.Valid()
    ensures |known'| == (if i == 0 then 1 else |alignments|)
    ensures IdsAgree(RefNames(alignments), idMap.ids, known') && known'[i] == idA
    ensures idMap.names == InsertAll(names0, RefNames(alignments)[..|known'|]) && Extends(ids0, idMap.ids)
    ensures g.Model() == Partial(g0, known', i, i + 1)
  {
    ghost var refs := RefNames(alignments);
    ghost var ids, names := idMap.ids, idMap.names;
    idA := idMap.TryInsert(alignments[i].refName);
    AgreeAfterInsert(refs, ids, idMap.ids, known, i);
    if i == 0 {
      NamesAfterInsert(names0, refs, names, idMap.names, 0);
      FirstNode(g0, idA);
      known' := [idA];
    } else {
      assert idMap.names == names;
      KnownAreNodes(g0, known, Pairs(known, i));
      RowStart(g0, known, i);
      known' := known;
    }
    g.TryInsertNode(idA, 0);
  }

  /**
   * The state of update_contact_map after its first `rows` rows: every
   * reference named so far has its id in `known`, the id map has grown by
   * those names, and the graph holds the contacts of those rows.
   */
  ghost predicate RowsDone(alignments: seq<SamElement>, rows: nat, g: Graph, names: seq<string>, ids: map<string, int>,
                           g0: Graph, names0: seq<string>, ids0: map<string, int>, known: seq<int>)
  {
    && |known| == (if rows == 0 then 0 else |alignments|)
    && IdsAgree(RefNames(alignments), ids, known)
    && names == InsertAll(names0, if rows == 0 then [] else RefNames(alignments))
    && Extends(ids0, ids)
    && rows <= |known|
    && g == Done(g0, known, rows)
  }

  /** Row i of update_contact_map: the head of the row, then its inner loop. */
  method ContactRowAll(alignments: seq<SamElement>, i: nat, g: ContactGraph, idMap: IncrementalIdMap,
                       ghost g0: Graph, ghost names0: seq<string>, ghost ids0: map<string, int>, ghost known: seq<int>)
    returns (ghost known': seq<int>)
    requires i < |alignments| && g.Valid() && idMap.Valid()
    requires RowsDone(alignments, i, g.Model(), idMap.names, idMap.ids, g0, names0, ids0, known)
    modifies g, idMap
    ensures g.Valid() && idMap.Valid()
    ensures RowsDone(alignments, i + 1, g.Model(), idMap.names, idMap.ids, g0, names0, ids0, known')
  {
    FullSlice(RefNames(alignments), |known|);
    var idA;
    idA, known' := RowHead(alignments, i, g, idMap, g0, names0, ids0, known);
    known' := ContactRow(alignments, i, idA, g, idMap, g0, names0, ids0, known');
    RowEnd(g0, known', i);
  }

  /**
   * update_contact_map: every reference is put into the id map and the
   * graph, then each pair i < j of the group adds one contact.
   */
  method UpdateContactMap(alignments: seq<SamElement>, g: ContactGraph, idMap: IncrementalIdMap)
    requires g.Valid() && idMap.Valid()
    modifies g, idMap
    ensures g.Valid() && idMap.Valid()
    ensures idMap.names == InsertAll(old(idMap.names), RefNames(alignments))
    ensures Extends(old(idMap.ids), idMap.ids)
    ensures forall k | 0 <= k < |alignments| :: alignments[k].refName in idMap.ids
    ensures g.Model() == ContactSpec(old(g.Model()), IdsOf(idMap.ids, RefNames(alignments)))
  {
    ghost var g0 := g.Model();
    ghost var names0 := idMap.names;
    ghost var ids0 := idMap.ids;
    ghost var known: seq<int> := [];
    NoRowsDone(alignments, g0, names0, ids0);
    var n := |alignments|;
    var i := 0;
    while i < n
      invariant i <= n && g.Valid() && idMap.Valid()
      invariant RowsDone(alignments, i, g.Model(), idMap.names, idMap.ids, g0, names0, ids0, known)
    {
      known := ContactRowAll(alignments, i, g, idMap, g0, names0, ids0, known);
      i := i + 1;
    }
    GroupDone(alignments, g.Model(), idMap.names, idMap.ids, g0, names0, ids0, known);
  }

  /** Before the first row nothing is known and nothing has changed. */
  lemma NoRowsDone(alignments: seq<SamElement>, g0: Graph, names0: seq<string>, ids0: map<string, int>)
    ensures RowsDone(alignments, 0, g0, names0, ids0, g0, names0, ids0, [])
  {
  }

  /** After the last row, the id map and the graph are those update_contact_map promises. */
  lemma GroupDone(alignments: seq<SamElement>, g: Graph, names: seq<string>, ids: map<string, int>,
                  g0: Graph, names0: seq<string>, ids0: map<string, int>, known: seq<int>)
    requires RowsDone(alignments, |alignments|, g, names, ids, g0, names0, ids0, known)
    ensures names == InsertAll(names0, RefNames(alignments)) && Extends(ids0, ids)
    ensures forall k | 0 <= k < |alignments| :: alignments[k].refName in ids
    ensures g == ContactSpec(g0, IdsOf(ids, RefNames(alignments)))
  {
    if alignments == [] {
      assert RefNames(alignments) == [];
      assert IdsOf(ids, RefNames(alignments)) == known;
    } else {
      assert known == IdsOf(ids, RefNames(alignments));
    }
  }

}
