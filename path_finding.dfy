/**
 * The `Graph` object of pathFinding.js: a list of edges that grows by
 * `addEdge`, the path query, and the two graph generators.
 */
module PathFinding {
  import opened ExtendedNat
  import opened SeqUtil
  import opened Results
  import opened Edges
  import Dijkstra

  /** The exception `generateRandom` throws */
  datatype GenerateError = TooManyEdges(nbEdges: nat, maxEdges: nat)

  class Graph {
    var edges: seq<Edge>

    constructor ()
      ensures edges == []
    {
      edges := [];
    }

    /** `addEdge`: appends an edge of constant cost 1 */
    method AddEdge(from: int, to: int)
      modifies this
      ensures edges == old(edges) + [WithConstantCost(from, to)]
    {
      var newEdge := WithConstantCost(from, to);
      edges := edges + [newEdge];
    }

    /**
     * `findPath`: `None` when `to` is `from` or cannot be reached, otherwise
     * a shortest path from `from` to `to`. The graph is not changed.
     */
    method FindPath(from: int, to: int) returns (path: Option<seq<int>>)
      ensures path.None? <==> from == to || !Reachable(edges, from, to)
      ensures path.Some? ==> IsPath(edges, path.value) && Walk(path.value, from, to)
      ensures path.Some? ==> forall q :: Walk(q, from, to) ==> Le(PathCost(edges, path.value), PathCost(edges, q))
      ensures path.Some? ==> Dijkstra.FollowsLinks(path.value, Dijkstra.FinalTables(edges, from).1)
    {
      path := Dijkstra.FindPathIn(edges, from, to);
    }

    /** `generateCircle`: the cycle `i -> (i + 1) % nbVertices` */
    static method GenerateCircle(nbVertices: nat) returns (graph: Graph)
      ensures fresh(graph)
      ensures graph.edges == CircleEdges(nbVertices)
    {
      graph := new Graph();
      var numVertex := 0;
      while numVertex < nbVertices
        invariant 0 <= numVertex <= nbVertices
        invariant graph.edges == CircleEdges(nbVertices)[..numVertex]
      {
        graph.AddEdge(numVertex, (numVertex + 1) % nbVertices);
        numVertex := numVertex + 1;
      }
    }

    /**
     * `generateRandom`, with the random index of each draw given in
     * `picks`: refuses more edges than ordered pairs, otherwise enumerates
     * the pairs and draws `nbEdges` of them without replacement.
     */
    static method GenerateRandom(nbVertices: nat, nbEdges: nat, picks: seq<nat>)
      returns (result: Result<Graph, GenerateError>)
      requires |picks| == nbEdges
      requires nbEdges <= nbVertices * nbVertices ==> ValidPicks(nbVertices * nbVertices, picks)
      ensures result.Err? <==> nbEdges > nbVertices * nbVertices
      ensures result.Err? ==> result.error == TooManyEdges(nbEdges, nbVertices * nbVertices)
      ensures result.Ok? ==> fresh(result.value) && result.value.edges == Sampled(AllPairs(nbVertices, nbVertices), picks)
    {
      var maxEdges := nbVertices * nbVertices;
      if nbEdges > maxEdges {
        return Err(TooManyEdges(nbEdges, maxEdges));
      }
      var allEdges := CandidateEdges(nbVertices);
      var graph := new Graph();
      assert forall e :: e in allEdges ==> e.cost == 1 by {
        AllPairsSpec(nbVertices, nbVertices);
      }
      ghost var pool := allEdges;
      var k := 0;
      while k < nbEdges
        invariant 0 <= k <= nbEdges
        invariant |allEdges| == maxEdges - k
        invariant ValidPicks(|allEdges|, picks[k..])
        invariant graph.edges + Sampled(allEdges, picks[k..]) == Sampled(pool, picks)
        invariant forall e :: e in allEdges ==> e.cost == 1
        invariant fresh(graph)
      {
        var id := picks[k];
        SampledStep(allEdges, picks, k);
        var e := allEdges[id];
        graph.AddEdge(e.from, e.to);
        allEdges := allEdges[..id] + allEdges[id + 1..];
        k := k + 1;
      }
      result := Ok(graph);
    }
  }

  /** The double loop of `generateRandom` that lists every ordered pair as a cost-1 edge */
  method CandidateEdges(nbVertices: nat) returns (allEdges: seq<Edge>)
    ensures allEdges == AllPairs(nbVertices, nbVertices)
  {
    allEdges := [];
    var i := 0;
    while i < nbVertices
      invariant 0 <= i <= nbVertices
      invariant allEdges == AllPairs(nbVertices, i)
    {
      var j := 0;
      while j < nbVertices
        invariant 0 <= j <= nbVertices
        invariant allEdges == AllPairs(nbVertices, i) + Row(i, nbVertices)[..j]
      {
        assert Row(i, nbVertices)[..j + 1] == Row(i, nbVertices)[..j] + [WithConstantCost(i, j)];
        allEdges := allEdges + [WithConstantCost(i, j)];
        j := j + 1;
      }
      assert Row(i, nbVertices)[..nbVertices] == Row(i, nbVertices);
      i := i + 1;
    }
  }

  /** The edges `generateCircle` adds, in order */
  function CircleEdges(n: nat): (es: seq<Edge>)
    ensures |es| == n
    ensures forall i :: 0 <= i < n ==> es[i] == Edge(i, (i + 1) % n, 1)
  {
    seq(n, i requires 0 <= i < n => WithConstantCost(i, (i + 1) % n))
  }

  /** The pairs `(i, j)` for `j` in `[0, n)`, as the inner loop pushes them */
  function Row(i: nat, n: nat): seq<Edge>
  {
    seq(n, j requires 0 <= j < n => WithConstantCost(i, j))
  }

  /** The candidate edges of `generateRandom`: the rows `0` to `rows - 1` */
  function AllPairs(n: nat, rows: nat): (ps: seq<Edge>)
    ensures |ps| == rows * n
  {
    if rows == 0 then [] else AllPairs(n, rows - 1) + Row(rows - 1, n)
  }

  /** Each draw indexes the candidates still left */
  predicate ValidPicks(size: nat, picks: seq<nat>)
  {
    forall k :: 0 <= k < |picks| ==> picks[k] < size - k
  }

  /** The edges drawn: each pick takes one candidate out of the list (`splice`) */
  function Sampled(pool: seq<Edge>, picks: seq<nat>): seq<Edge>
    requires ValidPicks(|pool|, picks)
  {
    if picks == [] then []
    else
      var id := picks[0];
      assert ValidPicks(|pool| - 1, picks[1..]) by {
        forall k | 0 <= k < |picks[1..]| ensures picks[1..][k] < |pool| - 1 - k {
          assert picks[1..][k] == picks[k + 1];
        }
      }
      [pool[id]] + Sampled(pool[..id] + pool[id + 1..], picks[1..])
  }

  /** One draw: the candidate at the pick, then the draws from the candidates left */
  lemma SampledStep(pool: seq<Edge>, picks: seq<nat>, k: nat)
    requires k < |picks| && ValidPicks(|pool|, picks[k..])
    ensures picks[k] < |pool|
    ensures ValidPicks(|pool| - 1, picks[k + 1..])
    ensures Sampled(pool, picks[k..]) == [pool[picks[k]]] + Sampled(pool[..picks[k]] + pool[picks[k] + 1..], picks[k + 1..])
  {
    assert picks[k..][0] == picks[k] && picks[k..][1..] == picks[k + 1..];
  }

  /**
   * The candidates are every ordered pair of vertices in `[0, n)` once:
   * `n * n` distinct edges of cost 1.
   */
  lemma {:induction false} AllPairsSpec(n: nat, rows: nat)
    ensures Distinct(AllPairs(n, rows))
    ensures forall e :: e in AllPairs(n, rows) <==> 0 <= e.from < rows && 0 <= e.to < n && e.cost == 1
  {
    if rows > 0 {
      AllPairsSpec(n, rows - 1);
      var p := AllPairs(n, rows - 1);
      var r := Row(rows - 1, n);
      forall e | e in r ensures e.from == rows - 1 && 0 <= e.to < n && e.cost == 1 { }
      forall e: Edge | 0 <= e.from < rows && 0 <= e.to < n && e.cost == 1 ensures e in p + r {
        if e.from == rows - 1 {
          assert r[e.to] == e;
        }
      }
      forall a, b | 0 <= a < b < |p + r| ensures (p + r)[a] != (p + r)[b] {
        if b >= |p| && a >= |p| {
          assert (p + r)[a] == r[a - |p|] && (p + r)[b] == r[b - |p|];
        } else if b >= |p| {
          assert (p + r)[b] in r;
          assert (p + r)[a] in p;
        }
      }
    }
  }

  /**
   * Drawing without replacement from distinct candidates gives distinct
   * candidates, one per pick.
   */
  lemma {:induction false} SampledSpec(pool: seq<Edge>, picks: seq<nat>)
    requires ValidPicks(|pool|, picks) && Distinct(pool)
    ensures |Sampled(pool, picks)| == |picks|
    ensures Distinct(Sampled(pool, picks))
    ensures forall e :: e in Sampled(pool, picks) ==> e in pool
  {
    if picks != [] {
      var id := picks[0];
      var rest := pool[..id] + pool[id + 1..];
      assert ValidPicks(|rest|, picks[1..]) by {
        forall k | 0 <= k < |picks[1..]| ensures picks[1..][k] < |rest| - k {
          assert picks[1..][k] == picks[k + 1];
        }
      }
      assert Distinct(rest) by {
        forall a, b | 0 <= a < b < |rest| ensures rest[a] != rest[b] {
          var a' := if a < id then a else a + 1;
          var b' := if b < id then b else b + 1;
          assert rest[a] == pool[a'] && rest[b] == pool[b'];
        }
      }
      SampledSpec(rest, picks[1..]);
      var s := Sampled(pool, picks);
      assert s == [pool[id]] + Sampled(rest, picks[1..]);
      assert pool[id] !in rest by {
        forall a | 0 <= a < |rest| ensures rest[a] != pool[id] {
          var a' := if a < id then a else a + 1;
          assert rest[a] == pool[a'];
        }
      }
      forall e | e in rest ensures e in pool {
        var a :| 0 <= a < |rest| && rest[a] == e;
        var a' := if a < id then a else a + 1;
        assert pool[a'] == e;
      }
    }
  }

  /**
   * `generateRandom` adds exactly `nbEdges` edges of cost 1 between vertices
   * in `[0, nbVertices)`, no two of them joining the same ordered pair.
   */
  lemma RandomEdgesDistinct(nbVertices: nat, picks: seq<nat>)
    requires ValidPicks(nbVertices * nbVertices, picks)
    ensures var es := Sampled(AllPairs(nbVertices, nbVertices), picks);
            && |es| == |picks|
            && (forall e :: e in es ==> 0 <= e.from < nbVertices && 0 <= e.to < nbVertices && e.cost == 1)
            && (forall a, b :: 0 <= a < b < |es| ==> (es[a].from, es[a].to) != (es[b].from, es[b].to))
  {
    AllPairsSpec(nbVertices, nbVertices);
    SampledSpec(AllPairs(nbVertices, nbVertices), picks);
  }

  // ---------------------------------------------------------------------
  // The circular graph

  /** On the cycle, the only transition out of `a` goes to `(a + 1) % n`, at cost 1 */
  lemma CircleCost(n: nat, a: int, b: int)
    ensures Cost(CircleEdges(n), a, b) == if 0 <= a < n && b == (a + 1) % n then Fin(1) else Inf
  {
    var es := CircleEdges(n);
    CostFirstMatch(es, a, b);
    if 0 <= a < n && b == (a + 1) % n {
      assert es[a].from == a && es[a].to == b;
      CostIsAnEdgeCost(es, a, b);
    }
  }

  lemma SmallMod(x: nat, n: nat)
    requires x < n
    ensures x % n == x
  {
  }

  /** Each step along the cycle costs 1 and goes from `i` to `i + 1` while `i + 1 < n`. */
  lemma CircleStep(n: nat, a: int, b: int)
    requires HasEdge(CircleEdges(n), a, b)
    ensures Cost(CircleEdges(n), a, b) == Fin(1)
    ensures 0 <= a && a + 1 < n ==> b == a + 1
  {
    CostFirstMatch(CircleEdges(n), a, b);
    CircleCost(n, a, b);
    if 0 <= a && a + 1 < n {
      SmallMod(a + 1, n);
    }
  }

  /**
   * A path on the cycle that starts at 0 visits 0, 1, 2, ... in turn until
   * it wraps around, and costs one unit per step.
   */
  lemma {:induction false} CirclePathShape(n: nat, q: seq<int>)
    requires n > 0 && |q| >= 1 && q[0] == 0 && IsPath(CircleEdges(n), q)
    ensures forall i :: 0 <= i < |q| && i < n ==> q[i] == i
    ensures PathCost(CircleEdges(n), q) == Fin(|q| - 1)
  {
    var es := CircleEdges(n);
    if |q| > 1 {
      var p := q[..|q| - 1];
      assert IsPath(es, p) by {
        forall i | 0 < i < |p| ensures HasEdge(es, p[i - 1], p[i]) {
          assert p[i - 1] == q[i - 1] && p[i] == q[i];
        }
      }
      CirclePathShape(n, p);
      var a, b := q[|q| - 2], q[|q| - 1];
      assert HasEdge(es, a, b);
      CircleStep(n, a, b);
      assert PathCost(es, q) == Add(PathCost(es, p), Cost(es, a, b));
      forall i | 0 <= i < |q| && i < n ensures q[i] == i {
        if i < |q| - 1 {
          assert q[i] == p[i];
        } else {
          assert p[i - 1] == i - 1;
        }
      }
    }
  }

  /** `[0, 1, ..., k]` is a path on the cycle when `k < n` */
  lemma CountingPath(n: nat, k: nat)
    requires k < n
    ensures IsPath(CircleEdges(n), seq(k + 1, i => i))
  {
    var q := seq(k + 1, i => i);
    forall i | 0 < i < |q| ensures HasEdge(CircleEdges(n), q[i - 1], q[i]) {
      assert CircleEdges(n)[i - 1].from == i - 1 && CircleEdges(n)[i - 1].to == i;
    }
  }

  /**
   * On the cycle of `n` vertices, the path from 0 to `k` is `[0, 1, ..., k]`
   * for `0 < k < n`, and there is none from 0 to 0.
   */
  method FindPathOnCircle(n: nat, k: nat) returns (path: Option<seq<int>>)
    requires k < n
    ensures k == 0 ==> path == None
    ensures k > 0 ==> path == Some(seq(k + 1, i => i))
  {
    var graph := Graph.GenerateCircle(n);
    path := graph.FindPath(0, k);
    if k > 0 {
      var counting := seq(k + 1, i => i);
      CountingPath(n, k);
      assert Walk(counting, 0, k);
      var p := path.value;
      CirclePathShape(n, p);
      CirclePathShape(n, counting);
      assert |p| - 1 <= k;
      assert forall i :: 0 <= i < |p| ==> p[i] == i;
      assert p == counting;
    }
  }
}
