/**
 * The weighted graph of pathFinding.js as a list of edges, and the queries
 * the shortest-path engine asks of it: reachable neighbours, the cost of a
 * transition, the list of all vertices, and the cost of a path.
 */
module Edges {
  import opened ExtendedNat
  import opened SeqUtil

  /** A directed edge between two vertex ids with a non-negative cost */
  datatype Edge = Edge(from: int, to: int, cost: nat)

  /** `Edge.withConstantCost`: an edge of cost 1 */
  function WithConstantCost(from: int, to: int): (r: Edge)
    ensures Cost([r], from, to) == Fin(1)
    ensures Neighbors([r], from) == [to]
  {
    Edge(from, to, 1)
  }

  /** Some edge of `es` goes from `a` to `b` */
  ghost predicate HasEdge(es: seq<Edge>, a: int, b: int)
  {
    exists k :: 0 <= k < |es| && es[k].from == a && es[k].to == b
  }

  /** `findReachableNeighbors`: the targets of the edges leaving `v`, in edge order */
  function Neighbors(es: seq<Edge>, v: int): (r: seq<int>)
    ensures |r| <= |es|
  {
    if es == [] then []
    else (if es[0].from == v then [es[0].to] else []) + Neighbors(es[1..], v)
  }

  lemma {:induction false} NeighborsMember(es: seq<Edge>, v: int, n: int)
    ensures n in Neighbors(es, v) <==> HasEdge(es, v, n)
  {
    if es != [] {
      NeighborsMember(es[1..], v, n);
      if HasEdge(es[1..], v, n) {
        var k :| 0 <= k < |es[1..]| && es[1..][k].from == v && es[1..][k].to == n;
        assert es[k + 1].from == v && es[k + 1].to == n;
      }
      if HasEdge(es, v, n) {
        var k :| 0 <= k < |es| && es[k].from == v && es[k].to == n;
        if k > 0 { assert es[1..][k - 1] == es[k]; }
      }
    }
  }

  /**
   * Neighbours are listed in edge order: those of a concatenation are those
   * of the first part followed by those of the second; with
   * `NeighborsOfOne` this determines the list.
   */
  lemma {:induction false} NeighborsAppend(es1: seq<Edge>, es2: seq<Edge>, v: int)
    ensures Neighbors(es1 + es2, v) == Neighbors(es1, v) + Neighbors(es2, v)
  {
    if es1 != [] {
      assert (es1 + es2)[1..] == es1[1..] + es2;
      NeighborsAppend(es1[1..], es2, v);
    } else {
      assert es1 + es2 == es2;
    }
  }

  lemma NeighborsOfOne(e: Edge, v: int)
    ensures Neighbors([e], v) == if e.from == v then [e.to] else []
  {
    assert [e][1..] == [];
  }

  /** `findCost`: the cost of the first edge from `a` to `b`, or +infinity */
  function Cost(es: seq<Edge>, a: int, b: int): (r: ExtNat)
    ensures r.Fin? ==> HasEdge(es, a, b)
  {
    if es == [] then Inf
    else if es[0].from == a && es[0].to == b then Fin(es[0].cost)
    else Cost(es[1..], a, b)
  }

  /**
   * The cost is finite exactly when an edge from `a` to `b` exists, and then
   * it is the cost of the first such edge in insertion order.
   */
  lemma {:induction false} CostFirstMatch(es: seq<Edge>, a: int, b: int)
    ensures Cost(es, a, b).Fin? <==> HasEdge(es, a, b)
    ensures forall k :: 0 <= k < |es| && es[k].from == a && es[k].to == b
                        && (forall j :: 0 <= j < k ==> !(es[j].from == a && es[j].to == b))
                        ==> Cost(es, a, b) == Fin(es[k].cost)
  {
    if es != [] {
      CostFirstMatch(es[1..], a, b);
      if HasEdge(es[1..], a, b) {
        var k :| 0 <= k < |es[1..]| && es[1..][k].from == a && es[1..][k].to == b;
        assert es[k + 1].from == a && es[k + 1].to == b;
      }
      if HasEdge(es, a, b) && !(es[0].from == a && es[0].to == b) {
        var k :| 0 <= k < |es| && es[k].from == a && es[k].to == b;
        assert es[1..][k - 1] == es[k];
      }
      forall k | 0 <= k < |es| && es[k].from == a && es[k].to == b
                 && (forall j :: 0 <= j < k ==> !(es[j].from == a && es[j].to == b))
        ensures Cost(es, a, b) == Fin(es[k].cost)
      {
        if k > 0 {
          assert es[1..][k - 1] == es[k];
          forall j | 0 <= j < k - 1 ensures !(es[1..][j].from == a && es[1..][j].to == b) {
            assert es[1..][j] == es[j + 1];
          }
        }
      }
    }
  }

  /** A finite cost is the cost of some edge of the list */
  lemma {:induction false} CostIsAnEdgeCost(es: seq<Edge>, a: int, b: int)
    requires Cost(es, a, b).Fin?
    ensures exists k :: 0 <= k < |es| && es[k].from == a && es[k].to == b && Cost(es, a, b) == Fin(es[k].cost)
  {
    if !(es[0].from == a && es[0].to == b) {
      CostIsAnEdgeCost(es[1..], a, b);
      var k :| 0 <= k < |es[1..]| && es[1..][k].from == a && es[1..][k].to == b
               && Cost(es[1..], a, b) == Fin(es[1..][k].cost);
      assert es[k + 1] == es[1..][k];
    }
  }

  /** The endpoints of the edges in order: from and to of the first edge, then of the second, ... */
  function Endpoints(es: seq<Edge>): seq<int>
  {
    if es == [] then [] else Endpoints(es[..|es| - 1]) + [es[|es| - 1].from, es[|es| - 1].to]
  }

  lemma {:induction false} EndpointsMember(es: seq<Edge>, x: int)
    ensures x in Endpoints(es) <==> exists k :: 0 <= k < |es| && (es[k].from == x || es[k].to == x)
  {
    if es != [] {
      var p := es[..|es| - 1];
      EndpointsMember(p, x);
      if exists k :: 0 <= k < |p| && (p[k].from == x || p[k].to == x) {
        var k :| 0 <= k < |p| && (p[k].from == x || p[k].to == x);
        assert es[k] == p[k];
      }
      if exists k :: 0 <= k < |es| && (es[k].from == x || es[k].to == x) {
        var k :| 0 <= k < |es| && (es[k].from == x || es[k].to == x);
        if k < |es| - 1 { assert p[k] == es[k]; }
      }
    }
  }

  /** What `findAllVertices` returns: distinct endpoints in first-seen order */
  function VerticesOf(es: seq<Edge>): (r: seq<int>)
    ensures Distinct(r)
    ensures forall x :: x in r <==> x in Endpoints(es)
  {
    DedupMembers(Endpoints(es));
    Dedup(Endpoints(es))
  }

  /**
   * `findAllVertices`: walks the edges and pushes each endpoint not seen yet,
   * first `from` and then `to`.
   */
  method FindAllVertices(es: seq<Edge>) returns (vs: seq<int>)
    ensures vs == VerticesOf(es)
    ensures Distinct(vs)
    ensures forall x :: x in vs <==> x in Endpoints(es)
    ensures forall x :: x in vs <==> exists k :: 0 <= k < |es| && (es[k].from == x || es[k].to == x)
    ensures FirstSeenOrdered(vs, Endpoints(es))
  {
    vs := [];
    var i := 0;
    while i < |es|
      invariant 0 <= i <= |es|
      invariant vs == Dedup(Endpoints(es[..i]))
    {
      var e := es[i];
      ghost var before := Endpoints(es[..i]);
      assert es[..i + 1][..i] == es[..i];
      assert Endpoints(es[..i + 1]) == before + [e.from, e.to];
      assert (before + [e.from, e.to])[..|before| + 1] == before + [e.from];
      if e.from !in vs {
        vs := vs + [e.from];
      }
      if e.to !in vs {
        vs := vs + [e.to];
      }
      i := i + 1;
    }
    assert es[..|es|] == es;
    DedupSpec(Endpoints(es));
    forall x ensures x in vs <==> exists k :: 0 <= k < |es| && (es[k].from == x || es[k].to == x) {
      EndpointsMember(es, x);
    }
  }

  /** Both ends of an existing transition are vertices of the graph */
  lemma EdgeEndsAreVertices(es: seq<Edge>, a: int, b: int)
    requires Cost(es, a, b).Fin?
    ensures a in VerticesOf(es) && b in VerticesOf(es)
  {
    CostFirstMatch(es, a, b);
    var k :| 0 <= k < |es| && es[k].from == a && es[k].to == b;
    EndpointsMember(es, a);
    EndpointsMember(es, b);
    DedupSpec(Endpoints(es));
  }

  /** Every reachable neighbour is a vertex of the graph */
  lemma NeighborsAreVertices(es: seq<Edge>, v: int)
    ensures forall n :: n in Neighbors(es, v) ==> n in VerticesOf(es)
  {
    forall n | n in Neighbors(es, v) ensures n in VerticesOf(es) {
      NeighborsMember(es, v, n);
      CostFirstMatch(es, v, n);
      EdgeEndsAreVertices(es, v, n);
    }
  }

  // ---------------------------------------------------------------------
  // Paths

  /** Every two consecutive vertices of `q` are joined by an edge */
  ghost predicate IsPath(es: seq<Edge>, q: seq<int>)
  {
    forall i :: 0 < i < |q| ==> HasEdge(es, q[i - 1], q[i])
  }

  /** `q` starts at `a` and ends at `b` */
  predicate Walk(q: seq<int>, a: int, b: int)
  {
    |q| >= 1 && q[0] == a && q[|q| - 1] == b
  }

  /** Sum of the `findCost` of every step of `q`; +infinity when a step has no edge */
  function PathCost(es: seq<Edge>, q: seq<int>): ExtNat
  {
    if |q| <= 1 then Fin(0)
    else Add(PathCost(es, q[..|q| - 1]), Cost(es, q[|q| - 2], q[|q| - 1]))
  }

  ghost predicate Reachable(es: seq<Edge>, a: int, b: int)
  {
    exists q :: IsPath(es, q) && Walk(q, a, b)
  }

  /**
   * A vertex that is no endpoint of any edge reaches nothing and is reached
   * by nothing but itself.
   */
  lemma OutsideGraphUnreachable(es: seq<Edge>, a: int, b: int)
    requires a != b && (a !in VerticesOf(es) || b !in VerticesOf(es))
    ensures !Reachable(es, a, b)
  {
    if q :| IsPath(es, q) && Walk(q, a, b) {
      var n := |q|;
      CostFirstMatch(es, q[0], q[1]);
      EdgeEndsAreVertices(es, q[0], q[1]);
      CostFirstMatch(es, q[n - 2], q[n - 1]);
      EdgeEndsAreVertices(es, q[n - 2], q[n - 1]);
    }
  }

  /** A path has a finite cost, and only a path has */
  lemma {:induction false} PathCostFinite(es: seq<Edge>, q: seq<int>)
    ensures PathCost(es, q).Fin? <==> IsPath(es, q)
  {
    if |q| > 1 {
      var p := q[..|q| - 1];
      PathCostFinite(es, p);
      CostFirstMatch(es, q[|q| - 2], q[|q| - 1]);
      assert forall i :: 0 <= i < |p| ==> p[i] == q[i];
    }
  }

  /** Extending a path never makes it cheaper */
  lemma {:induction false} PathCostPrefix(es: seq<Edge>, q: seq<int>, i: nat)
    requires 1 <= i <= |q|
    ensures Le(PathCost(es, q[..i]), PathCost(es, q))
  {
    if i < |q| {
      var p := q[..|q| - 1];
      PathCostPrefix(es, p, i);
      assert p[..i] == q[..i];
    } else {
      assert q[..i] == q;
    }
  }

  /** Cost of a path extended by one step */
  lemma PathCostSnoc(es: seq<Edge>, q: seq<int>, i: nat)
    requires 1 <= i < |q|
    ensures PathCost(es, q[..i + 1]) == Add(PathCost(es, q[..i]), Cost(es, q[i - 1], q[i]))
  {
    assert q[..i + 1][..i] == q[..i];
  }
}
