/**
 * The weighted evidence graph both drivers build and edit (ContactGraph).
 * Nodes carry a sequence length, the coverage accumulated from confirmed
 * edges and an alt flag; edges are undirected, stored once per unordered
 * pair of node ids, and carry an integer weight.
 *
 * `Graph` is the value the graph holds and its operations as functions;
 * `ContactGraph` is the mutable object whose methods the drivers call and
 * whose every method is specified by the matching function on `Graph`.
 * Edge iteration follows `order`, the order in which edges were inserted;
 * the neighbour order of a node is the order of its edges in `order`.
 */
module ContactGraphs {

  datatype Node = Node(length: int, coverage: int, hasAlt: bool)

  /** An undirected edge under its canonical key: the smaller id first. */
  datatype Edge = Edge(lo: int, hi: int)

  /** The key of the pair {a, b}: both orders of a pair name one edge. */
  function Key(a: int, b: int): (e: Edge)
    ensures e.lo <= e.hi
    ensures (e.lo == a && e.hi == b) || (e.lo == b && e.hi == a)
  {
    if a <= b then Edge(a, b) else Edge(b, a)
  }

  lemma KeyIsUnordered(a: int, b: int)
    ensures Key(a, b) == Key(b, a)
  {
  }

  predicate Touches(e: Edge, n: int)
  {
    e.lo == n || e.hi == n
  }

  ghost predicate Distinct<T>(s: seq<T>)
  {
    forall i, j | 0 <= i < j < |s| :: s[i] != s[j]
  }

  /** `es` with the edge `e` taken out, the rest in their order. */
  function Without(es: seq<Edge>, e: Edge): (r: seq<Edge>)
    ensures forall x :: x in r <==> x in es && x != e
    ensures e !in es ==> r == es
    ensures Distinct(es) ==> Distinct(r)
    ensures Distinct(es) && e in es ==> |r| == |es| - 1
  {
    if es == [] then []
    else if es[0] == e then Without(es[1..], e)
    else
      var rest := Without(es[1..], e);
      assert Distinct(es) ==> Distinct(es[1..]) && es[0] !in es[1..] by {
        if Distinct(es) {
          forall i, j | 0 <= i < j < |es| - 1 ensures es[1..][i] != es[1..][j] {
            assert es[i + 1] != es[j + 1];
          }
        }
      }
      [es[0]] + rest
  }

  /** The neighbours of `n`, one per incident edge, in the order of `es`. */
  function NeighborsIn(es: seq<Edge>, n: int): (ns: seq<int>)
    ensures (forall e | e in es :: e.lo <= e.hi) ==> forall x :: x in ns <==> Key(n, x) in es
  {
    if es == [] then []
    else
      var e, rest := es[0], NeighborsIn(es[1..], n);
      if e.lo == n then [e.hi] + rest
      else if e.hi == n then [e.lo] + rest
      else rest
  }

  datatype Graph = Graph(nodes: map<int, Node>, weights: map<Edge, int>, order: seq<Edge>)
  {
    /** Every edge is listed once in `order`, under its key, between two nodes. */
    ghost predicate Valid()
    {
      && Distinct(order)
      && (forall e :: e in weights <==> e in order)
      && (forall e | e in weights :: e.lo <= e.hi && e.lo in nodes && e.hi in nodes)
    }

    /** try_insert_node: a no-op when `id` is a node, else a node of length 0. */
    function InsertNode(id: int, coverage: int): Graph
    {
      if id in nodes then this else this.(nodes := nodes[id := Node(0, coverage, false)])
    }

    /** try_insert_edge: a no-op when the pair has an edge, else an edge of weight `w`. */
    function InsertEdge(a: int, b: int, w: int): Graph
    {
      var e := Key(a, b);
      if e in weights then this else this.(weights := weights[e := w], order := order + [e])
    }

    function IncrementWeight(a: int, b: int, delta: int): Graph
      requires Key(a, b) in weights
    {
      this.(weights := weights[Key(a, b) := weights[Key(a, b)] + delta])
    }

    function SetLength(id: int, length: int): Graph
      requires id in nodes
    {
      this.(nodes := nodes[id := nodes[id].(length := length)])
    }

    function SetCoverage(id: int, coverage: int): Graph
      requires id in nodes
    {
      this.(nodes := nodes[id := nodes[id].(coverage := coverage)])
    }

    function IncrementCoverage(id: int, delta: int): Graph
      requires id in nodes
    {
      this.(nodes := nodes[id := nodes[id].(coverage := nodes[id].coverage + delta)])
    }

    /** add_alt: flags both nodes; the pair gets no edge. */
    function AddAlt(a: int, b: int): Graph
      requires a in nodes && b in nodes
    {
      var marked := nodes[a := nodes[a].(hasAlt := true)];
      this.(nodes := marked[b := marked[b].(hasAlt := true)])
    }

    function RemoveEdge(a: int, b: int): Graph
    {
      this.(weights := weights - {Key(a, b)}, order := Without(order, Key(a, b)))
    }

    function Neighbors(n: int): seq<int>
    {
      NeighborsIn(order, n)
    }
  }

  /** Inserting a pair that already has an edge, in either order, keeps the first weight. */
  lemma InsertEdgeKeepsFirstWeight(g: Graph, a: int, b: int, w1: int, w2: int)
    ensures g.InsertEdge(a, b, w1).InsertEdge(b, a, w2) == g.InsertEdge(a, b, w1)
    ensures Key(a, b) !in g.weights ==> g.InsertEdge(a, b, w1).weights[Key(b, a)] == w1
  {
  }

  class ContactGraph {
    var nodes: map<int, Node>
    var weights: map<Edge, int>
    var order: seq<Edge>

    function Model(): Graph
      reads this
    {
      Graph(nodes, weights, order)
    }

    ghost predicate Valid()
      reads this
    {
      Model().Valid()
    }

    constructor ()
      ensures Valid() && nodes == map[] && weights == map[] && order == []
    {
      nodes, weights, order := map[], map[], [];
    }

    method TryInsertNode(id: int, coverage: int)
      requires Valid()
      modifies this
      ensures Valid() && Model() == old(Model()).InsertNode(id, coverage)
    {
      if id !in nodes {
        nodes := nodes[id := Node(0, coverage, false)];
      }
    }

    method TryInsertEdge(a: int, b: int, w: int)
      requires Valid() && a in nodes && b in nodes
      modifies this
      ensures Valid() && Model() == old(Model()).InsertEdge(a, b, w)
    {
      var e := Key(a, b);
      if e !in weights {
        weights := weights[e := w];
        order := order + [e];
      }
    }

    method IncrementEdgeWeight(a: int, b: int, delta: int)
      requires Valid() && Key(a, b) in weights
      modifies this
      ensures Valid() && Model() == old(Model()).IncrementWeight(a, b, delta)
    {
      var e := Key(a, b);
      weights := weights[e := weights[e] + delta];
    }

    method SetNodeLength(id: int, length: int)
      requires Valid() && id in nodes
      modifies this
      ensures Valid() && Model() == old(Model()).SetLength(id, length)
    {
      nodes := nodes[id := nodes[id].(length := length)];
    }

    method SetNodeCoverage(id: int, coverage: int)
      requires Valid() && id in nodes
      modifies this
      ensures Valid() && Model() == old(Model()).SetCoverage(id, coverage)
    {
      nodes := nodes[id := nodes[id].(coverage := coverage)];
    }

    method IncrementCoverage(id: int, delta: int)
      requires Valid() && id in nodes
      modifies this
      ensures Valid() && Model() == old(Model()).IncrementCoverage(id, delta)
    {
      nodes := nodes[id := nodes[id].(coverage := nodes[id].coverage + delta)];
    }

    method AddAlt(a: int, b: int)
      requires Valid() && a in nodes && b in nodes
      modifies this
      ensures Valid() && Model() == old(Model()).AddAlt(a, b)
    {
      nodes := nodes[a := nodes[a].(hasAlt := true)];
      nodes := nodes[b := nodes[b].(hasAlt := true)];
    }

    method RemoveEdge(a: int, b: int)
      requires Valid()
      modifies this
      ensures Valid() && Model() == old(Model()).RemoveEdge(a, b)
    {
      var e := Key(a, b);
      weights := weights - {e};
      order := Without(order, e);
    }

    /** has_node: exactly when try_insert_node of `id` would change nothing. */
    predicate HasNode(id: int)
      reads this
      ensures HasNode(id) <==> Model().InsertNode(id, 0) == Model()
    {
      id in nodes
    }

    /** get_edge_weight: the same weight whichever end is named first. */
    function EdgeWeight(a: int, b: int): (w: int)
      reads this
      requires Key(a, b) in weights
      ensures Key(b, a) in weights && w == weights[Key(b, a)]
    {
      weights[Key(a, b)]
    }

    /** for_each_node_neighbor: the neighbour order of `id`, one entry per edge at `id`. */
    function Neighbors(id: int): (ns: seq<int>)
      reads this
      requires Valid()
      ensures forall x :: x in ns <==> Key(id, x) in weights
    {
      NeighborsIn(order, id)
    }
  }
}
