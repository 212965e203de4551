/**
 * The earlier engine of main.js: vertices are plain values, edges carry no
 * cost, and every step of a path counts 1 (`distances[current] + 1`). Its
 * `findPath` is the selection loop of pathFinding.js with `findCost`
 * replaced by that constant, so it is modelled by running the shared engine
 * on the same edges at cost 1; `UnitCost` shows that the relaxation
 * candidate is then `distances[current] + 1` for every neighbour.
 */
module MainGraph {
  import opened ExtendedNat
  import opened SeqUtil
  import opened Results
  import Edges
  import Dijkstra

  datatype Edge = Edge(from: int, to: int)

  /** The same edges, each with the constant cost the relaxation adds */
  function Weighted(es: seq<Edge>): seq<Edges.Edge>
  {
    seq(|es|, k requires 0 <= k < |es| => Edges.Edge(es[k].from, es[k].to, 1))
  }

  ghost predicate HasEdge(es: seq<Edge>, a: int, b: int)
  {
    exists k :: 0 <= k < |es| && es[k].from == a && es[k].to == b
  }

  /** Every two consecutive vertices of `q` are joined by an edge */
  ghost predicate IsPath(es: seq<Edge>, q: seq<int>)
  {
    forall i :: 0 < i < |q| ==> HasEdge(es, q[i - 1], q[i])
  }

  ghost predicate Reachable(es: seq<Edge>, a: int, b: int)
  {
    exists q :: IsPath(es, q) && Edges.Walk(q, a, b)
  }

  /** `findReachableNeighbors`: the targets of the edges whose `from` is `v`, in edge order */
  function Neighbors(es: seq<Edge>, v: int): (r: seq<int>)
    ensures |r| <= |es|
    ensures forall n :: n in r ==> exists e :: e in es && e.from == v && e.to == n
  {
    if es == [] then []
    else (if es[0].from == v then [es[0].to] else []) + Neighbors(es[1..], v)
  }

  lemma HasEdgeWeighted(es: seq<Edge>, a: int, b: int)
    ensures HasEdge(es, a, b) <==> Edges.HasEdge(Weighted(es), a, b)
  {
    if Edges.HasEdge(Weighted(es), a, b) {
      var k :| 0 <= k < |Weighted(es)| && Weighted(es)[k].from == a && Weighted(es)[k].to == b;
      assert es[k].from == a && es[k].to == b;
    }
    if HasEdge(es, a, b) {
      var k :| 0 <= k < |es| && es[k].from == a && es[k].to == b;
      assert Weighted(es)[k].from == a && Weighted(es)[k].to == b;
    }
  }

  /**
   * The neighbours are exactly the targets of the edges leaving `v`, and
   * the list is the one the shared engine computes on the cost-1 edges.
   */
  lemma {:induction false} NeighborsSpec(es: seq<Edge>, v: int)
    ensures Neighbors(es, v) == Edges.Neighbors(Weighted(es), v)
    ensures forall n :: n in Neighbors(es, v) <==> HasEdge(es, v, n)
  {
    if es != [] {
      NeighborsSpec(es[1..], v);
      assert Weighted(es)[1..] == Weighted(es[1..]);
    }
    forall n ensures n in Neighbors(es, v) <==> HasEdge(es, v, n) {
      Edges.NeighborsMember(Weighted(es), v, n);
      HasEdgeWeighted(es, v, n);
    }
  }

  /**
   * On the cost-1 edges `findCost` is 1 between the ends of an edge and
   * +infinity elsewhere, so `distances[current] + findCost(current, n)` is
   * the `distances[current] + 1` of main.js for every neighbour `n`.
   */
  lemma UnitCost(es: seq<Edge>, a: int, b: int)
    ensures HasEdge(es, a, b) ==> Edges.Cost(Weighted(es), a, b) == Fin(1)
    ensures !HasEdge(es, a, b) ==> Edges.Cost(Weighted(es), a, b) == Inf
  {
    HasEdgeWeighted(es, a, b);
    Edges.CostFirstMatch(Weighted(es), a, b);
    if HasEdge(es, a, b) {
      Edges.CostIsAnEdgeCost(Weighted(es), a, b);
    }
  }

  /** A path costs one per step: its number of vertices minus one */
  lemma {:induction false} UnitPathCost(es: seq<Edge>, q: seq<int>)
    ensures IsPath(es, q) <==> Edges.IsPath(Weighted(es), q)
    ensures IsPath(es, q) && |q| >= 1 ==> Edges.PathCost(Weighted(es), q) == Fin(|q| - 1)
  {
    forall i | 0 < i < |q| ensures HasEdge(es, q[i - 1], q[i]) <==> Edges.HasEdge(Weighted(es), q[i - 1], q[i]) {
      HasEdgeWeighted(es, q[i - 1], q[i]);
    }
    if |q| > 1 && IsPath(es, q) {
      var p := q[..|q| - 1];
      assert IsPath(es, p) by {
        forall i | 0 < i < |p| ensures HasEdge(es, p[i - 1], p[i]) {
          assert p[i - 1] == q[i - 1] && p[i] == q[i];
        }
      }
      UnitPathCost(es, p);
      UnitCost(es, q[|q| - 2], q[|q| - 1]);
    }
  }

  /** The endpoints of the edges in order: from and to of the first edge, then of the second, ... */
  function Endpoints(es: seq<Edge>): seq<int>
  {
    if es == [] then [] else Endpoints(es[..|es| - 1]) + [es[|es| - 1].from, es[|es| - 1].to]
  }

  /** The endpoints are those of the cost-1 edges */
  lemma {:induction false} EndpointsWeighted(es: seq<Edge>)
    ensures Endpoints(es) == Edges.Endpoints(Weighted(es))
  {
    if es != [] {
      EndpointsWeighted(es[..|es| - 1]);
      assert Weighted(es)[..|es| - 1] == Weighted(es[..|es| - 1]);
    }
  }

  /**
   * `findAllVertices`: a `for-in` over the edges pushing each endpoint not
   * seen yet. The result has no repetitions, holds exactly the endpoints,
   * keeps their first-seen order, and is the vertex list the shared engine
   * computes.
   */
  method FindAllVertices(es: seq<Edge>) returns (allVertices: seq<int>)
    ensures allVertices == Dedup(Endpoints(es))
    ensures allVertices == Edges.VerticesOf(Weighted(es))
    ensures Distinct(allVertices)
    ensures forall x :: x in allVertices <==> x in Endpoints(es)
    ensures FirstSeenOrdered(allVertices, Endpoints(es))
  {
    allVertices := [];
    var e := 0;
    while e < |es|
      invariant 0 <= e <= |es|
      invariant allVertices == Dedup(Endpoints(es[..e]))
    {
      var curE := es[e];
      ghost var before := Endpoints(es[..e]);
      assert es[..e + 1][..e] == es[..e];
      assert Endpoints(es[..e + 1]) == before + [curE.from, curE.to];
      assert (before + [curE.from, curE.to])[..|before| + 1] == before + [curE.from];
      if curE.from !in allVertices {
        allVertices := allVertices + [curE.from];
      }
      if curE.to !in allVertices {
        allVertices := allVertices + [curE.to];
      }
      e := e + 1;
    }
    assert es[..|es|] == es;
    DedupSpec(Endpoints(es));
    EndpointsWeighted(es);
  }

  class Graph {
    var edges: seq<Edge>

    constructor ()
      ensures edges == []
    {
      edges := [];
    }

    /** `addEdge`: appends the edge `from -> to` */
    method AddEdge(from: int, to: int)
      modifies this
      ensures edges == old(edges) + [Edge(from, to)]
    {
      var newEdge := Edge(from, to);
      edges := edges + [newEdge];
    }

    /**
     * `findPath`: `None` when `to` is `from` or cannot be reached, otherwise
     * a path from `from` to `to` with as few vertices as any path between
     * them (its length is the breadth-first level of `to`).
     */
    method FindPath(from: int, to: int) returns (path: Option<seq<int>>)
      ensures path.None? <==> from == to || !Reachable(edges, from, to)
      ensures path.Some? ==> IsPath(edges, path.value) && Edges.Walk(path.value, from, to)
      ensures path.Some? ==> forall q :: IsPath(edges, q) && Edges.Walk(q, from, to) ==> |path.value| <= |q|
      ensures path.Some? ==> Dijkstra.FollowsLinks(path.value, Dijkstra.FinalTables(Weighted(edges), from).1)
    {
      path := Dijkstra.FindPathIn(Weighted(edges), from, to);
      if path.Some? {
        UnitPathCost(edges, path.value);
        forall q | IsPath(edges, q) && Edges.Walk(q, from, to) ensures |path.value| <= |q| {
          UnitPathCost(edges, q);
        }
      } else if from != to {
        forall q | IsPath(edges, q) && Edges.Walk(q, from, to) ensures false {
          UnitPathCost(edges, q);
        }
      }
      if from != to && Reachable(edges, from, to) {
        var q :| IsPath(edges, q) && Edges.Walk(q, from, to);
        UnitPathCost(edges, q);
      }
    }

    /** `generateCircle`: the cycle `i -> (i + 1) % nbVertices` */
    static method GenerateCircle(nbVertices: nat) returns (graph: Graph)
      ensures fresh(graph)
      ensures |graph.edges| == nbVertices
      ensures forall i :: 0 <= i < nbVertices ==> graph.edges[i] == Edge(i, (i + 1) % nbVertices)
    {
      graph := new Graph();
      var numVertex := 0;
      while numVertex < nbVertices
        invariant 0 <= numVertex <= nbVertices
        invariant |graph.edges| == numVertex
        invariant forall i :: 0 <= i < numVertex ==> graph.edges[i] == Edge(i, (i + 1) % nbVertices)
      {
        graph.AddEdge(numVertex, (numVertex + 1) % nbVertices);
        numVertex := numVertex + 1;
      }
    }
  }
}
