/**
 * The alt-link loop of phase_hic: contigs that the overlap finder pairs up
 * are flagged as alternatives of each other in the contact graph, without
 * an edge between them. The overlaps map each contig name to the name of
 * its partner; iteration order does not matter, since flagging commutes.
 */
module AltLinks {
  import opened ContactGraphs
  import opened IdMaps

  /** Some overlap pairs node `n` with another contig, both already nodes of the contact graph. */
  ghost predicate AltPartner(overlaps: map<string, string>, ids: map<string, int>, nodes: map<int, Node>, n: int)
    requires forall a | a in overlaps :: a in ids && overlaps[a] in ids
  {
    exists a | a in overlaps :: ids[a] in nodes && ids[overlaps[a]] in nodes && (n == ids[a] || n == ids[overlaps[a]])
  }

  /** The nodes after the alt-link loop: a node is flagged when it already was or an overlap pairs it. */
  ghost function AltLinked(nodes: map<int, Node>, overlaps: map<string, string>, ids: map<string, int>): map<int, Node>
    requires forall a | a in overlaps :: a in ids && overlaps[a] in ids
  {
    map n | n in nodes :: nodes[n].(hasAlt := nodes[n].hasAlt || AltPartner(overlaps, ids, nodes, n))
  }

  /** The nodes after the alt-link loop has visited the overlaps of `visited`. */
  ghost function AltLinkedIn(nodes: map<int, Node>, overlaps: map<string, string>, visited: set<string>, ids: map<string, int>): map<int, Node>
    requires forall a | a in overlaps :: a in ids && overlaps[a] in ids
  {
    AltLinked(nodes, VisitedOverlaps(overlaps, visited), ids)
  }

  /** The overlaps of the keys in `visited`. */
  function VisitedOverlaps(overlaps: map<string, string>, visited: set<string>): (m: map<string, string>)
    ensures m.Keys == visited * overlaps.Keys
    ensures forall a | a in m :: m[a] == overlaps[a]
  {
    map a | a in visited && a in overlaps :: overlaps[a]
  }

  /** After one more overlap is visited, a node has a partner exactly when it had one or the new overlap pairs it. */
  lemma PartnerStep(nodes: map<int, Node>, overlaps: map<string, string>, visited: set<string>, ids: map<string, int>, a: string, n: int)
    requires forall x | x in overlaps :: x in ids && overlaps[x] in ids
    requires a in overlaps
    ensures var ia, ib := ids[a], ids[overlaps[a]];
            AltPartner(VisitedOverlaps(overlaps, visited + {a}), ids, nodes, n)
            <==> AltPartner(VisitedOverlaps(overlaps, visited), ids, nodes, n) || (ia in nodes && ib in nodes && (n == ia || n == ib))
  {
    var m1 := VisitedOverlaps(overlaps, visited);
    var m2 := VisitedOverlaps(overlaps, visited + {a});
    if AltPartner(m2, ids, nodes, n) {
      var x :| x in m2 && ids[x] in nodes && ids[m2[x]] in nodes && (n == ids[x] || n == ids[m2[x]]);
      if x != a {
        assert x in m1;
      }
    }
    if ids[a] in nodes && ids[overlaps[a]] in nodes && (n == ids[a] || n == ids[overlaps[a]]) {
      assert a in m2;
    }
    if AltPartner(m1, ids, nodes, n) {
      var x :| x in m1 && ids[x] in nodes && ids[m1[x]] in nodes && (n == ids[x] || n == ids[m1[x]]);
      assert x in m2;
    }
  }

  /** Visiting one more overlap flags its two contigs when both are nodes, and changes nothing otherwise. */
  lemma AltStep(g0: Graph, overlaps: map<string, string>, visited: set<string>, ids: map<string, int>, a: string)
    requires forall x | x in overlaps :: x in ids && overlaps[x] in ids
    requires a in overlaps
    ensures var before := g0.(nodes := AltLinkedIn(g0.nodes, overlaps, visited, ids));
            var after := g0.(nodes := AltLinkedIn(g0.nodes, overlaps, visited + {a}, ids));
            after == if ids[a] in g0.nodes && ids[overlaps[a]] in g0.nodes then before.AddAlt(ids[a], ids[overlaps[a]]) else before
  {
    var before := AltLinkedIn(g0.nodes, overlaps, visited, ids);
    var after := AltLinkedIn(g0.nodes, overlaps, visited + {a}, ids);
    var ia, ib := ids[a], ids[overlaps[a]];
    forall n | n in g0.nodes
      ensures after[n] == if ia in g0.nodes && ib in g0.nodes && (n == ia || n == ib) then before[n].(hasAlt := true) else before[n]
    {
      PartnerStep(g0.nodes, overlaps, visited, ids, a, n);
    }
    if ia in g0.nodes && ib in g0.nodes {
      var g1 := g0.(nodes := before).AddAlt(ia, ib);
      assert g1.nodes == after;
    } else {
      assert before == after;
    }
  }

  /** One visit of the alt-link loop: the overlap of `a` flags its two contigs when both are nodes. */
  ghost function LinkOne(g: Graph, overlaps: map<string, string>, ids: map<string, int>, a: string): Graph
    requires forall x | x in overlaps :: x in ids && overlaps[x] in ids
    requires a in overlaps
  {
    if ids[a] in g.nodes && ids[overlaps[a]] in g.nodes then g.AddAlt(ids[a], ids[overlaps[a]]) else g
  }

  /** The graph after the alt-link loop visits the overlaps of `keys`, in that order. */
  ghost function LinkAll(g: Graph, overlaps: map<string, string>, ids: map<string, int>, keys: seq<string>): Graph
    requires forall x | x in overlaps :: x in ids && overlaps[x] in ids
    requires forall k | k in keys :: k in overlaps
  {
    if keys == [] then g
    else LinkOne(LinkAll(g, overlaps, ids, keys[..|keys| - 1]), overlaps, ids, keys[|keys| - 1])
  }

  /** Whatever the visiting order, the loop flags exactly the contigs some visited overlap pairs. */
  lemma {:induction false} LinkAllAnyOrder(g: Graph, overlaps: map<string, string>, ids: map<string, int>, keys: seq<string>)
    requires forall x | x in overlaps :: x in ids && overlaps[x] in ids
    requires forall k | k in keys :: k in overlaps
    ensures LinkAll(g, overlaps, ids, keys) == g.(nodes := AltLinkedIn(g.nodes, overlaps, (set k | k in keys), ids))
  {
    if keys == [] {
      NoneVisited(g.nodes, overlaps, ids);
      assert (set k | k in keys) == {};
    } else {
      var init, a := keys[..|keys| - 1], keys[|keys| - 1];
      LinkAllAnyOrder(g, overlaps, ids, init);
      AltStep(g, overlaps, (set k | k in init), ids, a);
      assert (set k | k in keys) == (set k | k in init) + {a} by {
        assert keys == init + [a];
      }
    }
  }

  /**
   * The alt-link loop of phase_hic: every overlap whose two contigs are
   * both nodes flags both of them; no node or edge is added.
   */
  method AddAltLinks(overlaps: map<string, string>, g: ContactGraph, idMap: IncrementalIdMap)
    requires g.Valid() && idMap.Valid()
    requires forall a | a in overlaps :: a in idMap.ids && overlaps[a] in idMap.ids
    modifies g
    ensures g.Valid()
    ensures g.Model() == old(g.Model()).(nodes := AltLinked(old(g.nodes), overlaps, idMap.ids))
  {
    ghost var g0 := g.Model();
    ghost var visited: seq<string> := [];
    var remaining := overlaps.Keys;
    while remaining != {}
      invariant remaining <= overlaps.Keys
      invariant forall k | k in visited :: k in overlaps
      invariant forall k | k in overlaps :: k in remaining || k in visited
      invariant g.Valid() && g.Model() == LinkAll(g0, overlaps, idMap.ids, visited)
      decreases |remaining|
    {
      var a :| a in remaining;
      LinkOverlap(a, overlaps, g, idMap);
      ghost var before := visited;
      visited := visited + [a];
      assert visited[..|visited| - 1] == before;
      remaining := remaining - {a};
    }
    LinkAllAnyOrder(g0, overlaps, idMap.ids, visited);
    assert (set k | k in visited) == overlaps.Keys;
    AllVisited(g0.nodes, overlaps, (set k | k in visited), idMap.ids);
  }

  /** One iteration of the alt-link loop: the overlap of `a` flags its two contigs when both are nodes. */
  method LinkOverlap(a: string, overlaps: map<string, string>, g: ContactGraph, idMap: IncrementalIdMap)
    requires idMap.Valid() && a in overlaps
    requires forall x | x in overlaps :: x in idMap.ids && overlaps[x] in idMap.ids
    requires g.Valid()
    modifies g
    ensures g.Valid() && g.Model() == LinkOne(old(g.Model()), overlaps, idMap.ids, a)
  {
    var idA := idMap.GetId(a);
    var idB := idMap.GetId(overlaps[a]);
    if g.HasNode(idA) && g.HasNode(idB) {
      g.AddAlt(idA, idB);
    }
  }

  /** Before any overlap is visited, no node is flagged by the loop. */
  lemma NoneVisited(nodes: map<int, Node>, overlaps: map<string, string>, ids: map<string, int>)
    requires forall a | a in overlaps :: a in ids && overlaps[a] in ids
    ensures AltLinkedIn(nodes, overlaps, {}, ids) == nodes
  {
    var m := VisitedOverlaps(overlaps, {});
    assert m.Keys == {};
    var r := AltLinked(nodes, m, ids);
    forall n | n in nodes
      ensures n in r && r[n] == nodes[n]
    {
      assert !AltPartner(m, ids, nodes, n);
    }
    assert r.Keys == nodes.Keys;
  }

  /** Once every overlap is visited, the loop has flagged what all the overlaps pair. */
  lemma AllVisited(nodes: map<int, Node>, overlaps: map<string, string>, visited: set<string>, ids: map<string, int>)
    requires forall a | a in overlaps :: a in ids && overlaps[a] in ids
    requires visited == overlaps.Keys
    ensures AltLinkedIn(nodes, overlaps, visited, ids) == AltLinked(nodes, overlaps, ids)
  {
    assert VisitedOverlaps(overlaps, visited) == overlaps;
  }
}
