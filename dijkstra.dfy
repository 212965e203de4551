/**
 * `findPath`: Dijkstra's algorithm with a linear scan for the closest
 * unmarked vertex, a `distances` and a `previous` dictionary, and the
 * reconstruction of the path by walking `previous` back from the target.
 *
 * The proof keeps, besides the variables of `findPath`, a ghost `rank` giving
 * each marked vertex its position in `marked`: a predecessor always has a
 * smaller rank than the vertex it precedes, which is why the walk back
 * terminates.
 */
module Dijkstra {
  import opened ExtendedNat
  import opened SeqUtil
  import opened Results
  import opened Edges
  import opened Selection
  import opened Relaxation

  /** No walk from `src` to `x` is cheaper than `d` */
  ghost predicate LowerBound(es: seq<Edge>, src: int, x: int, d: ExtNat)
  {
    forall q :: Walk(q, src, x) ==> Le(d, PathCost(es, q))
  }

  // ---------------------------------------------------------------------
  // The invariant of the selection loop

  /** Which vertices each table holds */
  ghost predicate Domains(vs: seq<int>, src: int, marked: seq<int>, rank: map<int, nat>,
                          dist: map<int, ExtNat>, prev: map<int, int>)
  {
    && (forall v :: v in dist <==> v in vs || v == src)
    && (forall v :: v in prev ==> v in vs)
    && (forall v :: v in marked ==> v in vs)
    && Distinct(marked)
    && (forall v :: v in rank <==> v in marked)
    && (forall v :: v in rank ==> rank[v] < |marked|)
  }

  /**
   * Every predecessor is marked, ranks before its successor once that one is
   * marked, and the successor's distance is the predecessor's plus the step.
   */
  ghost predicate PrevLinks(es: seq<Edge>, vs: seq<int>, src: int, marked: seq<int>, rank: map<int, nat>,
                            dist: map<int, ExtNat>, prev: map<int, int>)
    requires Domains(vs, src, marked, rank, dist, prev)
  {
    forall v :: v in prev ==>
      && prev[v] in marked && prev[v] in dist
      && dist[v].Fin?
      && dist[v] == Add(dist[prev[v]], Cost(es, prev[v], v))
      && (v in rank ==> rank[prev[v]] < rank[v])
  }

  /** Only the source has a finite distance without a predecessor */
  ghost predicate Unreached(src: int, dist: map<int, ExtNat>, prev: map<int, int>)
  {
    forall v :: v in dist && v !in prev && v != src ==> dist[v] == Inf
  }

  /** Marked vertices are no farther than unmarked ones */
  ghost predicate Ordered(vs: seq<int>, src: int, marked: seq<int>, rank: map<int, nat>,
                          dist: map<int, ExtNat>, prev: map<int, int>)
    requires Domains(vs, src, marked, rank, dist, prev)
  {
    forall x, y :: x in marked && y in vs && y !in marked ==> Le(dist[x], dist[y])
  }

  /** The edges leaving marked vertices have been relaxed */
  ghost predicate RelaxedFrom(es: seq<Edge>, vs: seq<int>, src: int, marked: seq<int>, rank: map<int, nat>,
                              dist: map<int, ExtNat>, prev: map<int, int>)
    requires Domains(vs, src, marked, rank, dist, prev)
  {
    forall x, y :: x in marked && y in dist ==> Le(dist[y], Add(dist[x], Cost(es, x, y)))
  }

  /** The distance of a marked vertex is final: no walk to it is cheaper */
  ghost predicate Settled(es: seq<Edge>, vs: seq<int>, src: int, marked: seq<int>, rank: map<int, nat>,
                          dist: map<int, ExtNat>, prev: map<int, int>)
    requires Domains(vs, src, marked, rank, dist, prev)
  {
    forall x :: x in marked ==> LowerBound(es, src, x, dist[x])
  }

  ghost predicate Inv(es: seq<Edge>, vs: seq<int>, src: int, marked: seq<int>, rank: map<int, nat>,
                      dist: map<int, ExtNat>, prev: map<int, int>)
  {
    && vs == VerticesOf(es)
    && Domains(vs, src, marked, rank, dist, prev)
    && dist[src] == Fin(0) && src !in prev
    && PrevLinks(es, vs, src, marked, rank, dist, prev)
    && Unreached(src, dist, prev)
    && Ordered(vs, src, marked, rank, dist, prev)
    && RelaxedFrom(es, vs, src, marked, rank, dist, prev)
    && Settled(es, vs, src, marked, rank, dist, prev)
  }

  /**
   * The first predecessor found is kept: relaxation replaces a predecessor
   * only on a strictly shorter route, so every vertex marked before a
   * predecessor offers a strictly longer route than the one recorded.
   */
  ghost predicate FirstLinks(es: seq<Edge>, rank: map<int, nat>, dist: map<int, ExtNat>, prev: map<int, int>)
  {
    forall v, x :: v in prev && prev[v] in rank && x in rank && rank[x] < rank[prev[v]] && v in dist && x in dist
      ==> Lt(dist[v], Add(dist[x], Cost(es, x, v)))
  }

  /** A walk that starts among the marked vertices and ends outside leaves them somewhere */
  lemma {:induction false} Crossing(q: seq<int>, marked: seq<int>) returns (i: nat)
    requires |q| >= 1 && q[0] in marked && q[|q| - 1] !in marked
    ensures 1 <= i < |q| && q[i - 1] in marked && q[i] !in marked
  {
    if q[|q| - 2] in marked {
      i := |q| - 1;
    } else {
      i := Crossing(q[..|q| - 1], marked);
    }
  }

  /**
   * The heart of Dijkstra's argument: the closest unmarked vertex can be
   * marked, since every walk to it leaves the marked vertices through an
   * edge that has already been relaxed.
   */
  lemma SelectedIsSettled(es: seq<Edge>, vs: seq<int>, src: int, marked: seq<int>, rank: map<int, nat>,
                          dist: map<int, ExtNat>, prev: map<int, int>, u: int)
    requires Inv(es, vs, src, marked, rank, dist, prev)
    requires u in vs && u !in marked
    requires forall w :: w in vs && w !in marked ==> Le(dist[u], dist[w])
    ensures LowerBound(es, src, u, dist[u])
  {
    forall q | Walk(q, src, u) ensures Le(dist[u], PathCost(es, q)) {
      if src !in vs {
        assert |q| >= 2;
        PathCostPrefix(es, q, 2);
        PathCostSnoc(es, q, 1);
        assert q[..1] == [src];
        if Cost(es, q[0], q[1]).Fin? {
          EdgeEndsAreVertices(es, q[0], q[1]);
        }
      } else if src in marked {
        var i := Crossing(q, marked);
        var x, y := q[i - 1], q[i];
        PathCostSnoc(es, q, i);
        PathCostPrefix(es, q, i + 1);
        assert Walk(q[..i], src, x);
        assert Le(dist[x], PathCost(es, q[..i]));
        if Cost(es, x, y).Fin? {
          EdgeEndsAreVertices(es, x, y);
          assert Le(dist[u], dist[y]);
          assert Le(dist[y], Add(dist[x], Cost(es, x, y)));
        }
      } else {
        assert Le(dist[u], dist[src]);
      }
    }
  }

  /** What one relaxation round from `u` did to every vertex, as `RelaxedSpec` states it */
  ghost predicate RoundFacts(es: seq<Edge>, dist: map<int, ExtNat>, prev: map<int, int>, u: int,
                             d': map<int, ExtNat>, p': map<int, int>)
    requires u in dist
  {
    && d'.Keys == dist.Keys
    && (forall y :: y in p' ==> y in prev || Improves(es, dist, u, y))
    && forall y :: y in dist ==>
         && Le(d'[y], dist[y])
         && d'[u] == dist[u]
         && (Improves(es, dist, u, y) ==> d'[y] == Add(dist[u], Cost(es, u, y)) && y in p' && p'[y] == u)
         && (!Improves(es, dist, u, y) ==> d'[y] == dist[y] && (y in p' <==> y in prev) && (y in prev ==> p'[y] == prev[y]))
         && Le(d'[y], Add(dist[u], Cost(es, u, y)))
  }

  lemma RoundFactsHold(es: seq<Edge>, dist: map<int, ExtNat>, prev: map<int, int>, u: int)
    requires u in dist
    ensures RoundFacts(es, dist, prev, u, RelaxedDist(es, dist, u, Neighbors(es, u)),
                       RelaxedPrev(es, dist, prev, u, Neighbors(es, u)))
  {
    forall y | y in dist
      ensures var d' := RelaxedDist(es, dist, u, Neighbors(es, u));
              var p' := RelaxedPrev(es, dist, prev, u, Neighbors(es, u));
              && Le(d'[y], dist[y])
              && d'[u] == dist[u]
              && (Improves(es, dist, u, y) ==> d'[y] == Add(dist[u], Cost(es, u, y)) && y in p' && p'[y] == u)
              && (!Improves(es, dist, u, y) ==> d'[y] == dist[y] && (y in p' <==> y in prev) && (y in prev ==> p'[y] == prev[y]))
              && Le(d'[y], Add(dist[u], Cost(es, u, y)))
    {
      RelaxedSpec(es, dist, prev, u, y);
    }
    RelaxedSpec(es, dist, prev, u, u);
  }

  /** A marked vertex is never improved: it is no farther than the selected one */
  lemma MarkedNotImproved(es: seq<Edge>, vs: seq<int>, src: int, marked: seq<int>, rank: map<int, nat>,
                          dist: map<int, ExtNat>, prev: map<int, int>, u: int)
    requires Inv(es, vs, src, marked, rank, dist, prev)
    requires u in vs && u !in marked
    ensures forall x :: x in marked + [u] ==> !Improves(es, dist, u, x)
  {
    forall x | x in marked + [u] ensures !Improves(es, dist, u, x) {
      if x != u {
        assert Le(dist[x], dist[u]);
      }
    }
  }

  /** The tables and the predecessor links after a round */
  lemma StepKeepsLinks(es: seq<Edge>, vs: seq<int>, src: int, marked: seq<int>, rank: map<int, nat>,
                       dist: map<int, ExtNat>, prev: map<int, int>, u: int, d': map<int, ExtNat>, p': map<int, int>)
    requires Inv(es, vs, src, marked, rank, dist, prev)
    requires u in vs && u !in marked
    requires RoundFacts(es, dist, prev, u, d', p')
    requires forall x :: x in marked + [u] ==> !Improves(es, dist, u, x)
    ensures Domains(vs, src, marked + [u], rank[u := |marked|], d', p')
    ensures PrevLinks(es, vs, src, marked + [u], rank[u := |marked|], d', p')
    ensures Unreached(src, d', p') && d'[src] == Fin(0) && src !in p'
  {
    var m' := marked + [u];
    var r' := rank[u := |marked|];
    forall y | y in p' ensures y in vs {
      if Improves(es, dist, u, y) {
        CostFirstMatch(es, u, y);
        EdgeEndsAreVertices(es, u, y);
      }
    }
    DistinctSnoc(marked, u);
    assert Domains(vs, src, m', r', d', p');
    forall v | v in p'
      ensures && p'[v] in m' && p'[v] in d'
              && d'[v].Fin?
              && d'[v] == Add(d'[p'[v]], Cost(es, p'[v], v))
              && (v in r' ==> r'[p'[v]] < r'[v])
    {
      if !Improves(es, dist, u, v) {
        assert p'[v] == prev[v] && prev[v] in marked;
      }
    }
  }

  /** The order between marked and unmarked vertices, and the relaxed edges, after a round */
  lemma StepKeepsOrder(es: seq<Edge>, vs: seq<int>, src: int, marked: seq<int>, rank: map<int, nat>,
                       dist: map<int, ExtNat>, prev: map<int, int>, u: int, d': map<int, ExtNat>, p': map<int, int>)
    requires Inv(es, vs, src, marked, rank, dist, prev)
    requires u in vs && u !in marked
    requires forall w :: w in vs && w !in marked ==> Le(dist[u], dist[w])
    requires RoundFacts(es, dist, prev, u, d', p')
    requires forall x :: x in marked + [u] ==> !Improves(es, dist, u, x)
    requires Domains(vs, src, marked + [u], rank[u := |marked|], d', p')
    ensures Ordered(vs, src, marked + [u], rank[u := |marked|], d', p')
    ensures RelaxedFrom(es, vs, src, marked + [u], rank[u := |marked|], d', p')
  {
    var m' := marked + [u];
    forall x, y | x in m' && y in vs && y !in m' ensures Le(d'[x], d'[y]) {
      assert Le(dist[x], dist[u]);
      assert Le(dist[x], dist[y]);
    }
    forall x, y | x in m' && y in d' ensures Le(d'[y], Add(d'[x], Cost(es, x, y))) {
      if x != u {
        assert Le(dist[y], Add(dist[x], Cost(es, x, y)));
      }
    }
  }

  /** A round keeps the first predecessor found for every vertex it does not improve */
  lemma StepKeepsFirstLinks(es: seq<Edge>, vs: seq<int>, src: int, marked: seq<int>, rank: map<int, nat>,
                            dist: map<int, ExtNat>, prev: map<int, int>, u: int, d': map<int, ExtNat>, p': map<int, int>)
    requires Inv(es, vs, src, marked, rank, dist, prev) && FirstLinks(es, rank, dist, prev)
    requires u in vs && u !in marked
    requires RoundFacts(es, dist, prev, u, d', p')
    requires forall x :: x in marked + [u] ==> !Improves(es, dist, u, x)
    ensures FirstLinks(es, rank[u := |marked|], d', p')
  {
    var r' := rank[u := |marked|];
    forall v, x | v in p' && p'[v] in r' && x in r' && r'[x] < r'[p'[v]] && v in d' && x in d'
      ensures Lt(d'[v], Add(d'[x], Cost(es, x, v)))
    {
      assert x in marked && x != u;
      assert d'[x] == dist[x];
      assert Le(dist[v], Add(dist[x], Cost(es, x, v)));
      if !Improves(es, dist, u, v) {
        assert p'[v] == prev[v] && prev[v] in marked;
      }
    }
  }

  /** Marking the selected vertex and relaxing its neighbours keeps the invariant */
  lemma StepKeepsInv(es: seq<Edge>, vs: seq<int>, src: int, marked: seq<int>, rank: map<int, nat>,
                     dist: map<int, ExtNat>, prev: map<int, int>, u: int)
    requires Inv(es, vs, src, marked, rank, dist, prev)
    requires u in vs && u !in marked
    requires forall w :: w in vs && w !in marked ==> Le(dist[u], dist[w])
    ensures Inv(es, vs, src, marked + [u], rank[u := |marked|],
                RelaxedDist(es, dist, u, Neighbors(es, u)), RelaxedPrev(es, dist, prev, u, Neighbors(es, u)))
  {
    var d' := RelaxedDist(es, dist, u, Neighbors(es, u));
    var p' := RelaxedPrev(es, dist, prev, u, Neighbors(es, u));
    var m' := marked + [u];
    var r' := rank[u := |marked|];
    RoundFactsHold(es, dist, prev, u);
    MarkedNotImproved(es, vs, src, marked, rank, dist, prev, u);
    StepKeepsLinks(es, vs, src, marked, rank, dist, prev, u, d', p');
    StepKeepsOrder(es, vs, src, marked, rank, dist, prev, u, d', p');
    SelectedIsSettled(es, vs, src, marked, rank, dist, prev, u);
    assert Settled(es, vs, src, m', r', d', p') by {
      forall x | x in m' ensures LowerBound(es, src, x, d'[x]) {
        assert d'[x] == dist[x];
      }
    }
  }

  /**
   * One round of the loop: the vertex `findSmallestUnmarked` returns is
   * unmarked, its neighbours have distances, and marking it then relaxing
   * its neighbours keeps the invariant.
   */
  lemma Advance(es: seq<Edge>, vs: seq<int>, src: int, marked: seq<int>, rank: map<int, nat>,
                dist: map<int, ExtNat>, prev: map<int, int>, u: int)
    requires Inv(es, vs, src, marked, rank, dist, prev) && FirstLinks(es, rank, dist, prev)
    requires SmallestUnmarked(vs, marked, dist) == Some(u)
    ensures u in vs && u !in marked
    ensures u in dist && forall n :: n in Neighbors(es, u) ==> n in dist
    ensures |Unmarked(vs, marked + [u])| < |Unmarked(vs, marked)|
    ensures Inv(es, vs, src, marked + [u], rank[u := |marked|],
                RelaxedDist(es, dist, u, Neighbors(es, u)), RelaxedPrev(es, dist, prev, u, Neighbors(es, u)))
    ensures FirstLinks(es, rank[u := |marked|],
                       RelaxedDist(es, dist, u, Neighbors(es, u)), RelaxedPrev(es, dist, prev, u, Neighbors(es, u)))
  {
    SmallestUnmarkedSpec(vs, marked, dist);
    StepKeepsInv(es, vs, src, marked, rank, dist, prev, u);
    RoundFactsHold(es, dist, prev, u);
    MarkedNotImproved(es, vs, src, marked, rank, dist, prev, u);
    StepKeepsFirstLinks(es, vs, src, marked, rank, dist, prev, u,
                        RelaxedDist(es, dist, u, Neighbors(es, u)), RelaxedPrev(es, dist, prev, u, Neighbors(es, u)));
    NeighborsAreVertices(es, u);
    UnmarkedShrinks(vs, marked, u);
  }

  /** The distances as `findPath` initialises them: +infinity, and 0 for the source */
  ghost function InitialDist(vs: seq<int>, src: int): map<int, ExtNat>
  {
    (map v | v in vs :: Inf)[src := Fin(0)]
  }

  /**
   * The rounds of the `while` loop of `findPath` from a given state, one
   * after the other: select with `findSmallestUnmarked`, mark, relax; the
   * tables once the selection returns `null`.
   */
  ghost function Rounds(es: seq<Edge>, vs: seq<int>, marked: seq<int>, dist: map<int, ExtNat>, prev: map<int, int>)
    : (map<int, ExtNat>, map<int, int>)
    requires forall v :: v in vs ==> v in dist
    decreases |Unmarked(vs, marked)|
  {
    match SmallestUnmarked(vs, marked, dist)
    case None => (dist, prev)
    case Some(u) =>
      UnmarkedShrinks(vs, marked, u);
      Rounds(es, vs, marked + [u], RelaxedDist(es, dist, u, Neighbors(es, u)), RelaxedPrev(es, dist, prev, u, Neighbors(es, u)))
  }

  /** The distance and predecessor tables `findPath` ends with, as a function of the edges and the source */
  ghost function FinalTables(es: seq<Edge>, src: int): (map<int, ExtNat>, map<int, int>)
  {
    Rounds(es, VerticesOf(es), [], InitialDist(VerticesOf(es), src), map[])
  }

  /** One round of `Rounds`: the vertex selected is marked and its neighbours are relaxed */
  lemma RoundsStep(es: seq<Edge>, vs: seq<int>, marked: seq<int>, dist: map<int, ExtNat>, prev: map<int, int>,
                   u: int, marked': seq<int>, d': map<int, ExtNat>, p': map<int, int>)
    requires forall v :: v in vs ==> v in dist
    requires SmallestUnmarked(vs, marked, dist) == Some(u) && marked' == marked + [u]
    requires d' == RelaxedDist(es, dist, u, Neighbors(es, u)) && p' == RelaxedPrev(es, dist, prev, u, Neighbors(es, u))
    ensures forall v :: v in vs ==> v in d'
    ensures Rounds(es, vs, marked, dist, prev) == Rounds(es, vs, marked', d', p')
  {
  }

  /** When no vertex is left to select, the rounds are over */
  lemma RoundsDone(es: seq<Edge>, vs: seq<int>, marked: seq<int>, dist: map<int, ExtNat>, prev: map<int, int>)
    requires forall v :: v in vs ==> v in dist
    requires SmallestUnmarked(vs, marked, dist).None?
    ensures Rounds(es, vs, marked, dist, prev) == (dist, prev)
  {
  }

  /** The tables as `findPath` initialises them satisfy the invariant */
  lemma InitialInv(es: seq<Edge>, vs: seq<int>, src: int)
    requires vs == VerticesOf(es)
    ensures Inv(es, vs, src, [], map[], (map v | v in vs :: Inf)[src := Fin(0)], map[])
  {
  }

  /** Once every vertex is marked, the distances are final */
  lemma FinalFacts(es: seq<Edge>, vs: seq<int>, src: int, marked: seq<int>, rank: map<int, nat>,
                   dist: map<int, ExtNat>, prev: map<int, int>)
    requires Inv(es, vs, src, marked, rank, dist, prev)
    requires SmallestUnmarked(vs, marked, dist).None?
    ensures Distinct(marked) && |marked| == |vs|
    ensures forall v :: v in marked <==> v in vs
    ensures forall v :: v in dist ==> LowerBound(es, src, v, dist[v])
    ensures forall v :: v in prev ==>
              && v in VerticesOf(es) && prev[v] in dist
              && dist[v].Fin? && dist[v] == Add(dist[prev[v]], Cost(es, prev[v], v))
    ensures forall v :: v in prev ==> v in rank && prev[v] in rank && rank[prev[v]] < rank[v]
  {
    SmallestUnmarkedSpec(vs, marked, dist);
    forall v | v in dist ensures LowerBound(es, src, v, dist[v]) {
      if v !in vs {
        assert dist[v] == Fin(0);
      }
    }
    DedupSpec(Endpoints(es));
    SameMembersSameLength(marked, vs);
  }

  /**
   * The initialisation and the `while` loop of `findPath`: afterwards every
   * vertex is marked, each distance is the length of a shortest walk from
   * `src`, and the `previous` links lead back to `src` along shortest walks.
   * `visits` lists the vertices in the order the loop marks them: each
   * round marks a new vertex, so the loop runs once per vertex.
   */
  method ComputeDistances(es: seq<Edge>, src: int)
    returns (dist: map<int, ExtNat>, prev: map<int, int>, ghost rank: map<int, nat>, ghost visits: seq<int>)
    ensures Distinct(visits) && |visits| == |VerticesOf(es)|
    ensures forall v :: v in visits <==> v in VerticesOf(es)
    ensures forall v :: v in dist <==> v in VerticesOf(es) || v == src
    ensures dist[src] == Fin(0) && src !in prev
    ensures forall v :: v in dist ==> LowerBound(es, src, v, dist[v])
    ensures forall v :: v in prev ==>
              && v in VerticesOf(es) && prev[v] in dist
              && dist[v].Fin? && dist[v] == Add(dist[prev[v]], Cost(es, prev[v], v))
    ensures forall v :: v in dist && v !in prev && v != src ==> dist[v] == Inf
    ensures forall v :: v in prev ==> v in rank && prev[v] in rank && rank[prev[v]] < rank[v]
    ensures FirstLinks(es, rank, dist, prev)
    ensures (dist, prev) == FinalTables(es, src)
  {
    var marked: seq<int> := [];
    var allVertices := FindAllVertices(es);
    dist := map v | v in allVertices :: Inf;
    dist := dist[src := Fin(0)];
    prev := map[];
    rank := map[];
    InitialInv(es, allVertices, src);
    assert dist == InitialDist(allVertices, src);

    var smallestUnmarked := SmallestUnmarked(allVertices, marked, dist);
    while smallestUnmarked.Some?
      invariant Inv(es, allVertices, src, marked, rank, dist, prev)
      invariant FirstLinks(es, rank, dist, prev)
      invariant Rounds(es, allVertices, marked, dist, prev) == FinalTables(es, src)
      invariant smallestUnmarked == SmallestUnmarked(allVertices, marked, dist)
      decreases |Unmarked(allVertices, marked)|
    {
      var current := smallestUnmarked.value;
      Advance(es, allVertices, src, marked, rank, dist, prev, current);
      rank := rank[current := |marked|];
      marked := marked + [current];
      dist, prev := Relax(es, current, dist, prev);
      smallestUnmarked := SmallestUnmarked(allVertices, marked, dist);
    }
    FinalFacts(es, allVertices, src, marked, rank, dist, prev);
    visits := marked;
  }

  /**
   * `reconstructPath`: `None` when `to` has no predecessor; otherwise the
   * chain of predecessors ending at `to`, from its first vertex, which has
   * no predecessor, to `to`.
   */
  method ReconstructPath(prev: map<int, int>, to: int, ghost rank: map<int, nat>) returns (path: Option<seq<int>>)
    requires forall v :: v in prev ==> v in rank && prev[v] in rank && rank[prev[v]] < rank[v]
    ensures path.None? <==> to !in prev
    ensures path.Some? ==>
              && |path.value| >= 2
              && path.value[|path.value| - 1] == to
              && path.value[0] !in prev
              && forall i :: 0 < i < |path.value| ==> path.value[i] in prev && prev[path.value[i]] == path.value[i - 1]
  {
    if to !in prev {
      return None;
    }
    var backwards := [to];
    var currentVertex := to;
    while currentVertex in prev
      invariant |backwards| >= 1 && backwards[0] == to && backwards[|backwards| - 1] == currentVertex
      invariant currentVertex in rank
      invariant |backwards| >= 2 || currentVertex in prev
      invariant forall i :: 0 <= i < |backwards| - 1 ==> backwards[i] in prev && prev[backwards[i]] == backwards[i + 1]
      decreases rank[currentVertex]
    {
      currentVertex := prev[currentVertex];
      backwards := backwards + [currentVertex];
    }
    path := Some(Reverse(backwards));
  }

  /**
   * A chain of predecessors ending at a vertex starts at the source, and its
   * prefixes cost exactly the distances of the vertices they end at.
   */
  lemma {:induction false} ChainCost(es: seq<Edge>, src: int, dist: map<int, ExtNat>, prev: map<int, int>,
                                     p: seq<int>, k: nat)
    requires src in dist && dist[src] == Fin(0)
    requires forall v :: v in prev ==> prev[v] in dist && v in dist && dist[v].Fin? && dist[v] == Add(dist[prev[v]], Cost(es, prev[v], v))
    requires forall v :: v in dist && v !in prev && v != src ==> dist[v] == Inf
    requires |p| >= 2 && p[0] !in prev
    requires forall i :: 0 < i < |p| ==> p[i] in prev && prev[p[i]] == p[i - 1]
    requires k < |p|
    ensures p[0] == src
    ensures PathCost(es, p[..k + 1]) == dist[p[k]]
  {
    var second := p[1];
    assert second in prev && prev[second] == p[0];
    assert dist[second] == Add(dist[p[0]], Cost(es, p[0], second));
    if k == 0 {
      assert p[..1] == [p[0]];
    } else {
      ChainCost(es, src, dist, prev, p, k - 1);
      PathCostSnoc(es, p, k);
    }
  }

  /**
   * `p` is the walk back along `prev` read forwards: it starts at a vertex
   * without a predecessor and each later vertex is preceded by its predecessor.
   */
  ghost predicate FollowsLinks(p: seq<int>, prev: map<int, int>)
  {
    && |p| >= 1 && p[0] !in prev
    && forall i :: 0 < i < |p| ==> p[i] in prev && prev[p[i]] == p[i - 1]
  }

  /** Two walks back along the same links from the same target are the same walk */
  lemma {:induction false} LinksDetermineWalk(p: seq<int>, q: seq<int>, prev: map<int, int>)
    requires FollowsLinks(p, prev) && FollowsLinks(q, prev) && p[|p| - 1] == q[|q| - 1]
    ensures p == q
    decreases |p|
  {
    if |p| > 1 && |q| > 1 {
      var p', q' := p[..|p| - 1], q[..|q| - 1];
      assert p[|p| - 1] in prev && prev[p[|p| - 1]] == p'[|p'| - 1];
      assert q[|q| - 1] in prev && prev[q[|q| - 1]] == q'[|q'| - 1];
      assert FollowsLinks(p', prev) by {
        forall i | 0 < i < |p'| ensures p'[i] in prev && prev[p'[i]] == p'[i - 1] {
          assert p'[i] == p[i] && p'[i - 1] == p[i - 1];
        }
      }
      assert FollowsLinks(q', prev) by {
        forall i | 0 < i < |q'| ensures q'[i] in prev && prev[q'[i]] == q'[i - 1] {
          assert q'[i] == q[i] && q'[i - 1] == q[i - 1];
        }
      }
      LinksDetermineWalk(p', q', prev);
      assert p == p' + [p[|p| - 1]] && q == q' + [q[|q| - 1]];
    }
  }

  /** Without a predecessor, the target is the source or cannot be reached */
  lemma NoPredecessorUnreachable(es: seq<Edge>, src: int, dst: int, dist: map<int, ExtNat>, prev: map<int, int>)
    requires forall v :: v in dist <==> v in VerticesOf(es) || v == src
    requires forall v :: v in dist ==> LowerBound(es, src, v, dist[v])
    requires forall v :: v in dist && v !in prev && v != src ==> dist[v] == Inf
    requires dst !in prev && dst != src
    ensures !Reachable(es, src, dst)
  {
    forall q | IsPath(es, q) && Walk(q, src, dst) ensures false {
      PathCostFinite(es, q);
      if dst !in dist {
        assert HasEdge(es, q[|q| - 2], q[|q| - 1]);
        CostFirstMatch(es, q[|q| - 2], q[|q| - 1]);
        EdgeEndsAreVertices(es, q[|q| - 2], q[|q| - 1]);
      }
    }
  }

  /**
   * The shortest-path query on a list of weighted edges. `None` (the `null`
   * of pathFinding.js) exactly when `dst` is `src` or cannot be reached;
   * otherwise a path of edges from `src` to `dst` that no walk beats. Among
   * equally short paths it is the one the final `previous` table spells out,
   * so it is determined by the edges, `src` and `dst` alone.
   */
  method FindPathIn(es: seq<Edge>, src: int, dst: int) returns (path: Option<seq<int>>)
    ensures path.None? <==> src == dst || !Reachable(es, src, dst)
    ensures path.Some? ==> IsPath(es, path.value) && Walk(path.value, src, dst)
    ensures path.Some? ==> forall q :: Walk(q, src, dst) ==> Le(PathCost(es, path.value), PathCost(es, q))
    ensures path.None? <==> dst !in FinalTables(es, src).1
    ensures path.Some? ==> FollowsLinks(path.value, FinalTables(es, src).1)
  {
    var dist, prev;
    ghost var rank;
    ghost var visits;
    dist, prev, rank, visits := ComputeDistances(es, src);
    path := ReconstructPath(prev, dst, rank);
    if path.Some? {
      var p := path.value;
      ChainCost(es, src, dist, prev, p, |p| - 1);
      assert p[..|p|] == p;
      PathCostFinite(es, p);
      assert Walk(p, src, dst);
    } else if dst != src {
      NoPredecessorUnreachable(es, src, dst, dist, prev);
    }
  }
}
