/**
 * The reduction of the alignment graph to mutual best alignments
 * (bubble_align's final loop). Each round walks the edges of the alignment
 * graph in order and confirms an edge when its two ends are each other's
 * best neighbour, the edge's weight still fits in both ends' uncovered
 * length and it exceeds a fifth of both lengths. A confirmed edge moves to
 * the symmetrical graph, its weight is added to the coverage of both ends,
 * and the edges confirmed in the round are removed from the alignment graph
 * after it. Rounds repeat until one confirms nothing.
 */
module MutualBest {
  import opened ContactGraphs

  /** The weight of the edge between `a` and `x`. */
  function WeightTo(g: Graph, a: int, x: int): int
    requires Key(a, x) in g.weights
  {
    g.weights[Key(a, x)]
  }

  ghost predicate NoSelfLoops(g: Graph)
  {
    forall e | e in g.weights :: e.lo != e.hi
  }

  /** Every neighbour of `a` is joined to it by an edge. */
  lemma NeighborEdges(g: Graph, a: int)
    requires g.Valid()
    ensures forall x | x in g.Neighbors(a) :: Key(a, x) in g.weights
  {
  }

  /**
   * The best-neighbour scan over `ns`: the running best starts at
   * (-1, -1) and a neighbour replaces it only with a strictly larger weight.
   */
  function BestOf(g: Graph, a: int, ns: seq<int>): (int, int)
    requires forall x | x in ns :: Key(a, x) in g.weights
  {
    if ns == [] then (-1, -1)
    else
      var prev := BestOf(g, a, ns[..|ns| - 1]);
      var w := WeightTo(g, a, ns[|ns| - 1]);
      if w > prev.1 then (ns[|ns| - 1], w) else prev
  }

  /**
   * The scan finds the first neighbour of largest weight, or reports (-1, -1)
   * when no weight exceeds -1.
   */
  lemma {:induction false} BestOfIsFirstMax(g: Graph, a: int, ns: seq<int>)
    requires forall x | x in ns :: Key(a, x) in g.weights
    ensures var (best, value) := BestOf(g, a, ns);
            && (forall k | 0 <= k < |ns| :: WeightTo(g, a, ns[k]) <= value)
            && (value == -1 <==> forall k | 0 <= k < |ns| :: WeightTo(g, a, ns[k]) <= -1)
            && (value == -1 ==> best == -1)
            && (value != -1 ==> exists k | 0 <= k < |ns| :: ns[k] == best && WeightTo(g, a, best) == value &&
                                                          forall j | 0 <= j < k :: WeightTo(g, a, ns[j]) < value)
  {
    if ns != [] {
      var init := ns[..|ns| - 1];
      BestOfIsFirstMax(g, a, init);
      var (best, value) := BestOf(g, a, init);
      var w := WeightTo(g, a, ns[|ns| - 1]);
      assert forall k | 0 <= k < |init| :: ns[k] == init[k];
      if w > value {
        assert forall j | 0 <= j < |ns| - 1 :: WeightTo(g, a, ns[j]) < w;
      } else if value != -1 {
        var k :| 0 <= k < |init| && init[k] == best && WeightTo(g, a, best) == value &&
                 forall j | 0 <= j < k :: WeightTo(g, a, init[j]) < value;
        assert ns[k] == best;
      }
    }
  }

  /** The best neighbour of `a` and its weight, over the neighbour order of the graph. */
  function Best(g: Graph, a: int): (int, int)
    requires g.Valid()
  {
    NeighborEdges(g, a);
    BestOf(g, a, g.Neighbors(a))
  }

  /**
   * The test an edge passes to be confirmed: mutual best neighbours, the
   * weight fits in the uncovered length of both ends, and it is more than a
   * fifth of both lengths.
   */
  predicate Confirmable(g: Graph, e: Edge)
    requires g.Valid() && e in g.weights
  {
    var w := g.weights[e];
    var a, b := g.nodes[e.lo], g.nodes[e.hi];
    && Best(g, e.hi).0 == e.lo && Best(g, e.lo).0 == e.hi
    && a.coverage + w < a.length && b.coverage + w < b.length
    && 5 * w > a.length && 5 * w > b.length
  }

  /** A round in progress: the alignment graph, the symmetrical graph and the edges to delete. */
  datatype Round = Round(g: Graph, sym: Graph, confirmed: set<Edge>)

  /** What the symmetrical graph gains from a confirmed edge. */
  function Recorded(sym: Graph, a: int, b: int, lengthA: int, lengthB: int, w: int): Graph
  {
    var s := sym.InsertNode(a, 0).InsertNode(b, 0);
    s.SetLength(a, lengthA).SetLength(b, lengthB).InsertEdge(a, b, w)
  }

  lemma RecordedValid(sym: Graph, a: int, b: int, lengthA: int, lengthB: int, w: int)
    requires sym.Valid()
    ensures Recorded(sym, a, b, lengthA, lengthB, w).Valid()
  {
    var s1 := sym.InsertNode(a, 0).InsertNode(b, 0);
    assert s1.Valid();
    var s2 := s1.SetLength(a, lengthA).SetLength(b, lengthB);
    assert s2.Valid();
  }

  /** What the alignment graph gains from a confirmed edge: its weight on the coverage of both ends. */
  function Credited(g: Graph, a: int, b: int, w: int): (g': Graph)
    requires g.Valid() && a in g.nodes && b in g.nodes
    ensures g'.weights == g.weights && g'.order == g.order && g'.nodes.Keys == g.nodes.Keys
    ensures g'.Valid()
  {
    g.IncrementCoverage(a, w).IncrementCoverage(b, w)
  }

  /** One edge of a round: tested, and if confirmed recorded, credited and marked for deletion. */
  function Confirm(r: Round, e: Edge): (r': Round)
    requires r.g.Valid() && r.sym.Valid() && e in r.g.weights
    ensures r'.g.weights == r.g.weights && r'.g.order == r.g.order && r'.g.nodes.Keys == r.g.nodes.Keys
    ensures r'.g.Valid() && r'.sym.Valid()
    ensures r'.confirmed == if Confirmable(r.g, e) then r.confirmed + {e} else r.confirmed
  {
    if !Confirmable(r.g, e) then r
    else
      var w := r.g.weights[e];
      var a, b := e.lo, e.hi;
      RecordedValid(r.sym, a, b, r.g.nodes[a].length, r.g.nodes[b].length, w);
      Round(Credited(r.g, a, b, w),
            Recorded(r.sym, a, b, r.g.nodes[a].length, r.g.nodes[b].length, w),
            r.confirmed + {e})
  }

  /** A round over the edges `es`, one after another. */
  function Sweep(r: Round, es: seq<Edge>): (r': Round)
    requires r.g.Valid() && r.sym.Valid()
    requires forall e | e in es :: e in r.g.weights
    ensures r'.g.weights == r.g.weights && r'.g.order == r.g.order && r'.g.nodes.Keys == r.g.nodes.Keys
    ensures r'.g.Valid() && r'.sym.Valid()
    ensures r.confirmed <= r'.confirmed
    ensures forall e | e in r'.confirmed :: e in r.confirmed || e in es
  {
    if es == [] then r
    else Confirm(Sweep(r, es[..|es| - 1]), es[|es| - 1])
  }

  /** `es` without the edges of `d`, the rest in their order. */
  function Filter(es: seq<Edge>, d: set<Edge>): (r: seq<Edge>)
    ensures forall x :: x in r <==> x in es && x !in d
    ensures |r| <= |es|
    ensures forall x | x in es && x in d :: |r| < |es|
    ensures Distinct(es) ==> Distinct(r)
  {
    if es == [] then []
    else if es[0] in d then Filter(es[1..], d)
    else
      var rest := Filter(es[1..], d);
      assert Distinct(es) ==> Distinct(es[1..]) && es[0] !in es[1..] by {
        if Distinct(es) {
          forall i, j | 0 <= i < j < |es| - 1 ensures es[1..][i] != es[1..][j] {
            assert es[i + 1] != es[j + 1];
          }
        }
      }
      [es[0]] + rest
  }

  /** The alignment graph with the edges of `d` removed. */
  function RemoveAll(g: Graph, d: set<Edge>): (g': Graph)
    requires g.Valid()
    ensures g'.Valid()
  {
    g.(weights := g.weights - d, order := Filter(g.order, d))
  }

  lemma {:induction false} FilterNone(es: seq<Edge>)
    ensures Filter(es, {}) == es
  {
    if es != [] {
      FilterNone(es[1..]);
    }
  }

  lemma {:induction false} FilterOneMore(es: seq<Edge>, d: set<Edge>, e: Edge)
    ensures Without(Filter(es, d), e) == Filter(es, d + {e})
  {
    if es != [] {
      FilterOneMore(es[1..], d, e);
    }
  }

  /** Removing no edge changes nothing. */
  lemma RemoveNone(g: Graph)
    requires g.Valid()
    ensures RemoveAll(g, {}) == g
  {
    FilterNone(g.order);
    assert g.weights - {} == g.weights;
  }

  /** remove_edge on one more edge extends the set removed, whatever the order of removal. */
  lemma RemoveOneMore(g: Graph, d: set<Edge>, e: Edge)
    requires g.Valid() && e.lo <= e.hi
    ensures RemoveAll(g, d).RemoveEdge(e.lo, e.hi) == RemoveAll(g, d + {e})
  {
    FilterOneMore(g.order, d, e);
    assert g.weights - d - {e} == g.weights - (d + {e});
  }

  /**
   * The rounds of the reduction: a round over every edge in order, then the
   * deletion of what it confirmed; the reduction ends after a round that
   * confirms nothing.
   */
  ghost function Reduce(g: Graph, sym: Graph): (r: (Graph, Graph))
    requires g.Valid() && sym.Valid()
    ensures r.0.Valid() && r.1.Valid()
    decreases |g.order|
  {
    var r := Sweep(Round(g, sym, {}), g.order);
    if r.confirmed == {} then (r.g, r.sym)
    else
      var e :| e in r.confirmed;
      assert e in g.order;
      Reduce(RemoveAll(r.g, r.confirmed), r.sym)
  }

  /** A round that confirms nothing changes nothing, and no edge it visited passed the test. */
  lemma {:induction false} QuietRound(r: Round, es: seq<Edge>)
    requires r.g.Valid() && r.sym.Valid() && forall e | e in es :: e in r.g.weights
    requires r.confirmed == {} && Sweep(r, es).confirmed == {}
    ensures Sweep(r, es) == r
    ensures forall e | e in es :: !Confirmable(r.g, e)
  {
    if es != [] {
      var init := es[..|es| - 1];
      QuietRound(r, init);
      assert forall e | e in es :: e in init || e == es[|es| - 1];
    }
  }

  /** No edge of `g` passes the test. */
  ghost predicate Settled(g: Graph)
    requires g.Valid()
  {
    forall e | e in g.weights :: !Confirmable(g, e)
  }

  /** When the reduction stops, no edge left in the alignment graph passes the test. */
  lemma {:induction false} ReduceFixedPoint(g: Graph, sym: Graph)
    requires g.Valid() && sym.Valid()
    ensures Settled(Reduce(g, sym).0)
    decreases |g.order|
  {
    var r := Sweep(Round(g, sym, {}), g.order);
    if r.confirmed == {} {
      QuietRound(Round(g, sym, {}), g.order);
      assert Reduce(g, sym).0 == g;
      assert forall e | e in g.weights :: e in g.order;
    } else {
      var e :| e in r.confirmed;
      assert e in g.order;
      ReduceFixedPoint(RemoveAll(r.g, r.confirmed), r.sym);
      assert Reduce(g, sym).0 == Reduce(RemoveAll(r.g, r.confirmed), r.sym).0;
    }
  }

  /** The number of rounds the reduction runs: at most one more than the edges it starts with. */
  ghost function Passes(g: Graph, sym: Graph): (n: nat)
    requires g.Valid() && sym.Valid()
    ensures 1 <= n <= |g.order| + 1
    decreases |g.order|
  {
    var r := Sweep(Round(g, sym, {}), g.order);
    if r.confirmed == {} then 1
    else
      var e :| e in r.confirmed;
      assert e in g.order;
      1 + Passes(RemoveAll(r.g, r.confirmed), r.sym)
  }

  /** A round over edges none of which passes the test changes nothing. */
  lemma {:induction false} SettledRound(r: Round, es: seq<Edge>)
    requires r.g.Valid() && r.sym.Valid()
    requires forall e | e in es :: e in r.g.weights && !Confirmable(r.g, e)
    ensures Sweep(r, es) == r
  {
    if es != [] {
      SettledRound(r, es[..|es| - 1]);
    }
  }

  /** On a graph where no edge passes the test, the reduction stops after one round and changes nothing. */
  lemma ReduceSettled(g: Graph, sym: Graph)
    requires g.Valid() && sym.Valid() && Settled(g)
    ensures Reduce(g, sym) == (g, sym)
    ensures Passes(g, sym) == 1
  {
    assert forall e | e in g.order :: e in g.weights;
    SettledRound(Round(g, sym, {}), g.order);
  }

  /** Running the reduction again on its own result changes nothing. */
  lemma ReduceIdempotent(g: Graph, sym: Graph)
    requires g.Valid() && sym.Valid()
    ensures Reduce(Reduce(g, sym).0, Reduce(g, sym).1) == Reduce(g, sym)
  {
    ReduceFixedPoint(g, sym);
    ReduceSettled(Reduce(g, sym).0, Reduce(g, sym).1);
  }

  /** The total weight of the edges of `es` at node `n`. */
  function LoadIn(es: seq<Edge>, ws: map<Edge, int>, n: int): int
    requires forall e | e in es :: e in ws
  {
    if es == [] then 0
    else
      var e := es[|es| - 1];
      LoadIn(es[..|es| - 1], ws, n) + if Touches(e, n) then ws[e] else 0
  }

  /** The total weight of the symmetrical graph's edges at `n`. */
  function Load(sym: Graph, n: int): int
    requires sym.Valid()
  {
    LoadIn(sym.order, sym.weights, n)
  }

  /** The weight of an edge outside `es` does not count. */
  lemma {:induction false} LoadInFrame(es: seq<Edge>, ws: map<Edge, int>, e: Edge, w: int, n: int)
    requires forall x | x in es :: x in ws
    requires e !in es
    ensures LoadIn(es, ws[e := w], n) == LoadIn(es, ws, n)
  {
    if es != [] {
      LoadInFrame(es[..|es| - 1], ws, e, w, n);
    }
  }

  /** A new edge adds its weight to the load of its two ends. */
  lemma LoadInAppend(es: seq<Edge>, ws: map<Edge, int>, e: Edge, w: int, n: int)
    requires forall x | x in es :: x in ws
    requires e !in es
    ensures LoadIn(es + [e], ws[e := w], n) == LoadIn(es, ws, n) + if Touches(e, n) then w else 0
  {
    assert (es + [e])[..|es|] == es;
    LoadInFrame(es, ws, e, w, n);
  }

  /** The nodes of the symmetrical graph after a confirmed edge: both ends, with their lengths. */
  lemma RecordedNodes(sym: Graph, a: int, b: int, lengthA: int, lengthB: int, w: int)
    requires a != b
    ensures var s' := Recorded(sym, a, b, lengthA, lengthB, w);
            && s'.nodes.Keys == sym.nodes.Keys + {a, b}
            && s'.nodes[a].length == lengthA && s'.nodes[b].length == lengthB
            && (forall n | n in sym.nodes && n != a && n != b :: s'.nodes[n] == sym.nodes[n])
  {
    var s1 := sym.InsertNode(a, 0).InsertNode(b, 0);
    assert s1.nodes.Keys == sym.nodes.Keys + {a, b};
    assert forall n | n in sym.nodes :: s1.nodes[n] == sym.nodes[n];
  }

  /** The edges of the symmetrical graph after a confirmed edge: the edge is added, last. */
  lemma RecordedEdges(sym: Graph, a: int, b: int, lengthA: int, lengthB: int, w: int)
    requires Key(a, b) !in sym.weights
    ensures var s' := Recorded(sym, a, b, lengthA, lengthB, w);
            && s'.weights == sym.weights[Key(a, b) := w]
            && s'.order == sym.order + [Key(a, b)]
  {
  }

  /** `sym'` is `sym` with the edge `e` of weight `w` added last and its ends of lengths `lengthA` and `lengthB`. */
  ghost predicate RecordedFrom(sym: Graph, sym': Graph, e: Edge, lengthA: int, lengthB: int, w: int)
  {
    && sym'.nodes.Keys == sym.nodes.Keys + {e.lo, e.hi}
    && sym'.nodes[e.lo].length == lengthA && sym'.nodes[e.hi].length == lengthB
    && (forall n | n in sym.nodes && n != e.lo && n != e.hi :: sym'.nodes[n] == sym.nodes[n])
    && sym'.weights == sym.weights[e := w]
    && sym'.order == sym.order + [e]
  }

  /** `g'` is `g` with `w` added to the coverage of the ends of `e`. */
  ghost predicate CreditedFrom(g: Graph, g': Graph, e: Edge, w: int)
  {
    && g'.nodes.Keys == g.nodes.Keys
    && (forall n | n in g.nodes :: g'.nodes[n] == g.nodes[n].(coverage := g.nodes[n].coverage + if Touches(e, n) then w else 0))
  }

  lemma RecordedShape(sym: Graph, e: Edge, lengthA: int, lengthB: int, w: int)
    requires e.lo < e.hi && e !in sym.weights
    ensures RecordedFrom(sym, Recorded(sym, e.lo, e.hi, lengthA, lengthB, w), e, lengthA, lengthB, w)
  {
    assert Key(e.lo, e.hi) == e;
    RecordedNodes(sym, e.lo, e.hi, lengthA, lengthB, w);
    RecordedEdges(sym, e.lo, e.hi, lengthA, lengthB, w);
  }

  /** The alignment graph after a confirmed edge: both ends gain its weight, nothing else changes. */
  lemma CreditedShape(g: Graph, e: Edge, w: int)
    requires g.Valid() && e.lo in g.nodes && e.hi in g.nodes && e.lo != e.hi
    ensures CreditedFrom(g, Credited(g, e.lo, e.hi, w), e, w)
  {
  }

  /**
   * The edges of `g0` are split between the two graphs with their weights;
   * only an edge confirmed in the current round is in both.
   */
  ghost predicate Split(g0: Graph, r: Round)
  {
    && (forall e :: e in g0.weights <==> e in r.g.weights || e in r.sym.weights)
    && (forall e | e in r.g.weights :: e in g0.weights && r.g.weights[e] == g0.weights[e])
    && (forall e | e in r.sym.weights :: e in g0.weights && r.sym.weights[e] == g0.weights[e])
    && (forall e :: e in r.g.weights && e in r.sym.weights <==> e in r.confirmed)
  }

  /**
   * The nodes of `g0` keep their lengths, and the coverage of each grows by
   * the weight of the confirmed edges at it.
   */
  ghost predicate Covered(g0: Graph, g: Graph, sym: Graph)
  {
    && sym.Valid()
    && g.nodes.Keys == g0.nodes.Keys
    && (forall n | n in g.nodes ::
          && g.nodes[n].length == g0.nodes[n].length
          && g.nodes[n].coverage == g0.nodes[n].coverage + Load(sym, n))
  }

  /**
   * The symmetrical graph's nodes carry their lengths in `g0`; every confirmed
   * edge weighs more than a fifth of both ends' lengths, and neither end is
   * covered up to its length.
   */
  ghost predicate Bounded(g0: Graph, g: Graph, sym: Graph)
  {
    && (forall n | n in sym.nodes :: n in g0.nodes && sym.nodes[n].length == g0.nodes[n].length)
    && (forall e | e in sym.weights ::
          && e.lo in g0.nodes && e.hi in g0.nodes && e.lo in g.nodes && e.hi in g.nodes
          && 5 * sym.weights[e] > g0.nodes[e.lo].length && 5 * sym.weights[e] > g0.nodes[e.hi].length
          && g.nodes[e.lo].coverage < g.nodes[e.lo].length
          && g.nodes[e.hi].coverage < g.nodes[e.hi].length)
  }

  /** What holds of every round of the reduction of `g0`. */
  ghost predicate Tracks(g0: Graph, r: Round)
  {
    r.g.Valid() && r.sym.Valid() && Split(g0, r) && Covered(g0, r.g, r.sym) && Bounded(g0, r.g, r.sym)
  }

  /** A round's test of an edge not yet confirmed keeps the edges split. */
  lemma ConfirmKeepsSplit(g0: Graph, r: Round, e: Edge)
    requires r.g.Valid() && r.sym.Valid() && Split(g0, r)
    requires e in r.g.weights && e !in r.confirmed
    ensures Split(g0, Confirm(r, e))
  {
    if Confirmable(r.g, e) {
      assert Key(e.lo, e.hi) == e;
      RecordedEdges(r.sym, e.lo, e.hi, r.g.nodes[e.lo].length, r.g.nodes[e.hi].length, r.g.weights[e]);
    }
  }

  /** Crediting a newly recorded edge to its ends keeps coverage equal to the confirmed weight. */
  lemma CoveredStep(g0: Graph, g: Graph, sym: Graph, g': Graph, sym': Graph, e: Edge, lengthA: int, lengthB: int, w: int)
    requires Covered(g0, g, sym) && sym'.Valid() && e !in sym.order
    requires CreditedFrom(g, g', e, w) && RecordedFrom(sym, sym', e, lengthA, lengthB, w)
    ensures Covered(g0, g', sym')
  {
    forall n | n in g'.nodes
      ensures g'.nodes[n].coverage == g0.nodes[n].coverage + Load(sym', n)
    {
      LoadInAppend(sym.order, sym.weights, e, w, n);
    }
  }

  /** A recorded edge with room at both ends and more than a fifth of both lengths keeps the bounds. */
  lemma BoundedStep(g0: Graph, g: Graph, sym: Graph, g': Graph, sym': Graph, e: Edge, w: int)
    requires Covered(g0, g, sym) && Bounded(g0, g, sym) && e.lo in g.nodes && e.hi in g.nodes
    requires CreditedFrom(g, g', e, w) && RecordedFrom(sym, sym', e, g.nodes[e.lo].length, g.nodes[e.hi].length, w)
    requires g.nodes[e.lo].coverage + w < g.nodes[e.lo].length && g.nodes[e.hi].coverage + w < g.nodes[e.hi].length
    requires 5 * w > g.nodes[e.lo].length && 5 * w > g.nodes[e.hi].length
    ensures Bounded(g0, g', sym')
  {
    forall x | x in sym'.weights
      ensures g'.nodes[x.lo].coverage < g'.nodes[x.lo].length && g'.nodes[x.hi].coverage < g'.nodes[x.hi].length
    {
      if x != e {
        assert x in sym.weights;
      }
    }
  }

  lemma ConfirmKeeps(g0: Graph, r: Round, e: Edge)
    requires Tracks(g0, r) && NoSelfLoops(g0)
    requires e in r.g.weights && e !in r.confirmed
    ensures Tracks(g0, Confirm(r, e))
  {
    ConfirmKeepsSplit(g0, r, e);
    if Confirmable(r.g, e) {
      var g, sym, w := r.g, r.sym, r.g.weights[e];
      var lengthA, lengthB := g.nodes[e.lo].length, g.nodes[e.hi].length;
      assert e !in sym.weights && e.lo < e.hi;
      var g', sym' := Credited(g, e.lo, e.hi, w), Recorded(sym, e.lo, e.hi, lengthA, lengthB, w);
      RecordedValid(sym, e.lo, e.hi, lengthA, lengthB, w);
      RecordedShape(sym, e, lengthA, lengthB, w);
      CreditedShape(g, e, w);
      CoveredStep(g0, g, sym, g', sym', e, lengthA, lengthB, w);
      BoundedStep(g0, g, sym, g', sym', e, w);
    }
  }

  /** A round over distinct edges, none confirmed yet, keeps what every round keeps. */
  lemma {:induction false} SweepKeeps(g0: Graph, r: Round, es: seq<Edge>)
    requires Tracks(g0, r) && NoSelfLoops(g0) && Distinct(es)
    requires forall e | e in es :: e in r.g.weights && e !in r.confirmed
    ensures Tracks(g0, Sweep(r, es))
  {
    if es != [] {
      var init, last := es[..|es| - 1], es[|es| - 1];
      assert Distinct(init) by {
        forall i, j | 0 <= i < j < |init| ensures init[i] != init[j] {
          assert es[i] != es[j];
        }
      }
      SweepKeeps(g0, r, init);
      assert last !in init by {
        forall k | 0 <= k < |init| ensures init[k] != last {
          assert es[k] != es[|es| - 1];
        }
      }
      ConfirmKeeps(g0, Sweep(r, init), last);
    }
  }

  /** Deleting the confirmed edges after a round keeps what every round keeps, with nothing confirmed. */
  lemma RemoveKeeps(g0: Graph, r: Round)
    requires Tracks(g0, r)
    ensures Tracks(g0, Round(RemoveAll(r.g, r.confirmed), r.sym, {}))
  {
  }

  /** Every round of the reduction keeps the edges split, the coverage tracked and the confirmed edges bounded. */
  lemma {:induction false} ReduceKeeps(g0: Graph, g: Graph, sym: Graph)
    requires Tracks(g0, Round(g, sym, {})) && NoSelfLoops(g0)
    ensures Tracks(g0, Round(Reduce(g, sym).0, Reduce(g, sym).1, {}))
    decreases |g.order|
  {
    var r := Sweep(Round(g, sym, {}), g.order);
    SweepKeeps(g0, Round(g, sym, {}), g.order);
    if r.confirmed == {} {
      assert Reduce(g, sym) == (r.g, r.sym);
    } else {
      var e :| e in r.confirmed;
      assert e in g.order;
      RemoveKeeps(g0, r);
      ReduceKeeps(g0, RemoveAll(r.g, r.confirmed), r.sym);
      assert Reduce(g, sym) == Reduce(RemoveAll(r.g, r.confirmed), r.sym);
    }
  }

  /**
   * The reduction of an alignment graph without self-loops, starting from an
   * empty symmetrical graph: when it stops no edge left passes the test;
   * every edge ends in exactly one of the two graphs with its weight; lengths
   * stay and each coverage grows by the weight of the confirmed edges at the
   * node; every confirmed edge weighs more than a fifth of both ends' lengths
   * and leaves both ends covered below their length.
   */
  lemma MutualBestReduction(g0: Graph)
    requires g0.Valid() && NoSelfLoops(g0)
    ensures var r := Reduce(g0, Graph(map[], map[], []));
            var g, sym := r.0, r.1;
            && Settled(g)
            && (forall e :: e in g0.weights <==> e in g.weights || e in sym.weights)
            && (forall e | e in g.weights :: e !in sym.weights && g.weights[e] == g0.weights[e])
            && (forall e | e in sym.weights :: e in g0.weights && sym.weights[e] == g0.weights[e])
            && g.nodes.Keys == g0.nodes.Keys
            && (forall n | n in g.nodes ::
                  && g.nodes[n].length == g0.nodes[n].length
                  && g.nodes[n].coverage == g0.nodes[n].coverage + Load(sym, n))
            && (forall e | e in sym.weights ::
                  && e.lo in g.nodes && e.hi in g.nodes
                  && 5 * sym.weights[e] > g.nodes[e.lo].length && 5 * sym.weights[e] > g.nodes[e.hi].length
                  && g.nodes[e.lo].coverage < g.nodes[e.lo].length && g.nodes[e.hi].coverage < g.nodes[e.hi].length)
  {
    var empty := Graph(map[], map[], []);
    assert Tracks(g0, Round(g0, empty, {}));
    ReduceKeeps(g0, g0, empty);
    ReduceFixedPoint(g0, empty);
  }

  /** The number of edges of `es` at node `n`. */
  function CountIn(es: seq<Edge>, n: int): nat
  {
    if es == [] then 0
    else CountIn(es[..|es| - 1], n) + if Touches(es[|es| - 1], n) then 1 else 0
  }

  /** Edges at `n` that each weigh more than a fifth of `length` weigh that much together. */
  lemma {:induction false} LoadAtLeast(es: seq<Edge>, ws: map<Edge, int>, n: int, length: int)
    requires forall e | e in es :: e in ws
    requires forall e | e in es && Touches(e, n) :: 5 * ws[e] > length
    ensures 5 * LoadIn(es, ws, n) >= CountIn(es, n) * (length + 1)
    ensures CountIn(es, n) > 0 ==> exists e :: e in es && Touches(e, n)
  {
    if es != [] {
      var init, last := es[..|es| - 1], es[|es| - 1];
      LoadAtLeast(init, ws, n, length);
      var c := CountIn(init, n);
      if Touches(last, n) {
        assert (c + 1) * (length + 1) == c * (length + 1) + length + 1;
      }
    }
  }

  /** A node uncovered in `g0` whose confirmed edges each weigh over a fifth of its length has at most four. */
  lemma FourPartnersAt(g0: Graph, g: Graph, sym: Graph, n: int)
    requires Covered(g0, g, sym) && Bounded(g0, g, sym)
    requires n in g0.nodes && g0.nodes[n].length >= 0 && g0.nodes[n].coverage >= 0
    ensures CountIn(sym.order, n) <= 4
  {
    var length := g.nodes[n].length;
    LoadAtLeast(sym.order, sym.weights, n, length);
    var c := CountIn(sym.order, n);
    if c > 0 {
      var e :| e in sym.order && Touches(e, n);
      assert e in sym.weights;
      FewerThanFive(c, length, Load(sym, n));
    }
  }

  /**
   * A sequence of non-negative length that starts uncovered takes part in
   * at most four confirmed alignments.
   */
  lemma AtMostFourPartners(g0: Graph, n: int)
    requires g0.Valid() && NoSelfLoops(g0)
    requires n in g0.nodes && g0.nodes[n].length >= 0 && g0.nodes[n].coverage >= 0
    ensures CountIn(Reduce(g0, Graph(map[], map[], [])).1.order, n) <= 4
  {
    var empty := Graph(map[], map[], []);
    var r := Reduce(g0, empty);
    assert Tracks(g0, Round(g0, empty, {}));
    ReduceKeeps(g0, g0, empty);
    FourPartnersAt(g0, r.0, r.1, n);
  }

  lemma FewerThanFive(c: nat, length: int, load: int)
    requires length >= 0 && 5 * load >= c * (length + 1) && load < length
    ensures c <= 4
  {
  }

  /** The neighbour scan of for_each_node_neighbor: the best neighbour of `a` and its weight. */
  method BestNeighbor(g: ContactGraph, a: int) returns (best: int, value: int)
    requires g.Valid()
    ensures (best, value) == Best(g.Model(), a)
  {
    var ns := g.Neighbors(a);
    NeighborEdges(g.Model(), a);
    best, value := -1, -1;
    for k := 0 to |ns|
      invariant (best, value) == BestOf(g.Model(), a, ns[..k])
    {
      var w := g.EdgeWeight(a, ns[k]);
      if w > value {
        best, value := ns[k], w;
      }
      assert ns[..k + 1][..k] == ns[..k];
    }
    assert ns[..|ns|] == ns;
  }

  /** The symmetrical graph's side of a confirmed edge. */
  method RecordEdge(sym: ContactGraph, a: int, b: int, lengthA: int, lengthB: int, w: int)
    requires sym.Valid()
    modifies sym
    ensures sym.Valid() && sym.Model() == Recorded(old(sym.Model()), a, b, lengthA, lengthB, w)
  {
    sym.TryInsertNode(a, 0);
    sym.TryInsertNode(b, 0);
    sym.SetNodeLength(a, lengthA);
    sym.SetNodeLength(b, lengthB);
    sym.TryInsertEdge(a, b, w);
  }

  /** The alignment graph's side of a confirmed edge. */
  method CreditEdge(g: ContactGraph, a: int, b: int, w: int)
    requires g.Valid() && a in g.nodes && b in g.nodes
    modifies g
    ensures g.Valid() && g.Model() == Credited(old(g.Model()), a, b, w)
  {
    g.IncrementCoverage(a, w);
    g.IncrementCoverage(b, w);
  }

  /** The body of the edge loop for one edge. */
  method TestEdge(e: Edge, g: ContactGraph, sym: ContactGraph, toBeDeleted: set<Edge>) returns (toBeDeleted': set<Edge>)
    requires g.Valid() && sym.Valid() && g != sym && e in g.weights
    modifies g, sym
    ensures g.Valid() && sym.Valid()
    ensures Round(g.Model(), sym.Model(), toBeDeleted') == Confirm(Round(old(g.Model()), old(sym.Model()), toBeDeleted), e)
  {
    toBeDeleted' := toBeDeleted;
    var a, b := e.lo, e.hi;
    var weight := g.EdgeWeight(a, b);
    var aBest, aValue := BestNeighbor(g, a);
    var bBest, bValue := BestNeighbor(g, b);
    if bBest == a && aBest == b {
      var aCoverage, bCoverage := g.nodes[a].coverage, g.nodes[b].coverage;
      var aLength, bLength := g.nodes[a].length, g.nodes[b].length;
      if aCoverage + weight < aLength && bCoverage + weight < bLength && 5 * weight > aLength && 5 * weight > bLength {
        RecordEdge(sym, a, b, aLength, bLength, weight);
        CreditEdge(g, a, b, weight);
        toBeDeleted' := toBeDeleted + {e};
      }
    }
  }

  /** One round over the edges of the alignment graph, in order; the confirmed edges are returned for deletion. */
  method SweepEdges(g: ContactGraph, sym: ContactGraph) returns (toBeDeleted: set<Edge>)
    requires g.Valid() && sym.Valid() && g != sym
    modifies g, sym
    ensures g.Valid() && sym.Valid()
    ensures Round(g.Model(), sym.Model(), toBeDeleted) == Sweep(Round(old(g.Model()), old(sym.Model()), {}), old(g.order))
  {
    ghost var r0 := Round(g.Model(), sym.Model(), {});
    var edges := g.order;
    toBeDeleted := {};
    for k := 0 to |edges|
      invariant g.Valid() && sym.Valid()
      invariant Round(g.Model(), sym.Model(), toBeDeleted) == Sweep(r0, edges[..k])
    {
      assert edges[..k + 1][..k] == edges[..k];
      toBeDeleted := TestEdge(edges[k], g, sym, toBeDeleted);
    }
    assert edges[..|edges|] == edges;
  }

  /** remove_edge on one confirmed edge. */
  method RemoveConfirmed(g: ContactGraph, e: Edge, ghost g0: Graph, ghost removed: set<Edge>)
    requires g0.Valid() && g.Valid() && g.Model() == RemoveAll(g0, removed) && e.lo <= e.hi
    modifies g
    ensures g.Valid() && g.Model() == RemoveAll(g0, removed + {e})
  {
    RemoveOneMore(g0, removed, e);
    g.RemoveEdge(e.lo, e.hi);
  }

  /** The deletion loop: the confirmed edges leave the alignment graph, in any order. */
  method DeleteEdges(g: ContactGraph, toBeDeleted: set<Edge>) returns (found: bool)
    requires g.Valid() && forall e | e in toBeDeleted :: e.lo <= e.hi
    modifies g
    ensures g.Valid() && g.Model() == RemoveAll(old(g.Model()), toBeDeleted)
    ensures found <==> toBeDeleted != {}
  {
    ghost var g0 := g.Model();
    RemoveNone(g0);
    found := false;
    var remaining := toBeDeleted;
    ghost var removed: set<Edge> := {};
    while remaining != {}
      invariant remaining + removed == toBeDeleted
      invariant g.Valid() && g.Model() == RemoveAll(g0, removed)
      invariant found <==> removed != {}
      decreases remaining
    {
      var e :| e in remaining;
      RemoveConfirmed(g, e, g0, removed);
      removed := removed + {e};
      remaining := remaining - {e};
      found := true;
    }
  }

  /**
   * The reduction loop: rounds until one confirms nothing. The alignment
   * graph keeps the edges never confirmed; the returned symmetrical graph
   * holds the confirmed ones.
   */
  method ReduceToMutualBest(g: ContactGraph) returns (sym: ContactGraph, ghost passes: nat)
    requires g.Valid()
    modifies g
    ensures fresh(sym) && g.Valid() && sym.Valid()
    ensures (g.Model(), sym.Model()) == Reduce(old(g.Model()), Graph(map[], map[], []))
    ensures passes == Passes(old(g.Model()), Graph(map[], map[], [])) && passes <= |old(g.order)| + 1
  {
    sym := new ContactGraph();
    ghost var goal := Reduce(g.Model(), sym.Model());
    ghost var total := Passes(g.Model(), sym.Model());
    passes := 0;
    var found := true;
    while found
      invariant fresh(sym) && g.Valid() && sym.Valid()
      invariant found ==> Reduce(g.Model(), sym.Model()) == goal
      invariant found ==> passes + Passes(g.Model(), sym.Model()) == total
      invariant !found ==> (g.Model(), sym.Model()) == goal && passes == total
      decreases if found then |g.order| + 1 else 0
    {
      ghost var gs, ss := g.Model(), sym.Model();
      var toBeDeleted := SweepEdges(g, sym);
      ghost var r := Sweep(Round(gs, ss, {}), gs.order);
      found := DeleteEdges(g, toBeDeleted);
      passes := passes + 1;
      if found {
        ghost var e :| e in r.confirmed;
        assert e in gs.order;
      } else {
        RemoveNone(r.g);
      }
    }
  }
}
