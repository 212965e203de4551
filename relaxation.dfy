/**
 * The relaxation step of `findPath`: for every neighbour `n` of the vertex
 * `u` just marked, in the order `findReachableNeighbors` lists them, the
 * candidate `distances[u] + findCost(u, n)` replaces `distances[n]`, and `u`
 * becomes `previous[n]`, only when it is strictly smaller.
 */
module Relaxation {
  import opened ExtendedNat
  import opened Edges

  /** Going through `u` is strictly shorter than the distance known for `y` */
  ghost predicate Improves(es: seq<Edge>, dist: map<int, ExtNat>, u: int, y: int)
  {
    u in dist && y in dist && Lt(Add(dist[u], Cost(es, u, y)), dist[y])
  }

  /** The distances once the neighbours in `ns` have been relaxed from `u` */
  ghost function RelaxedDist(es: seq<Edge>, dist: map<int, ExtNat>, u: int, ns: seq<int>): map<int, ExtNat>
    requires u in dist
  {
    map y | y in dist :: if y in ns && Improves(es, dist, u, y) then Add(dist[u], Cost(es, u, y)) else dist[y]
  }

  /** The predecessors once the neighbours in `ns` have been relaxed from `u` */
  ghost function RelaxedPrev(es: seq<Edge>, dist: map<int, ExtNat>, prev: map<int, int>, u: int, ns: seq<int>): map<int, int>
  {
    map y | y in prev.Keys + (set n | n in ns && Improves(es, dist, u, n)) ::
      if y in ns && Improves(es, dist, u, y) then u else prev[y]
  }

  /** Relaxing one more neighbour `n` is the update the loop body makes to `distances` */
  lemma RelaxDistOneMore(es: seq<Edge>, dist: map<int, ExtNat>, u: int, ns: seq<int>, n: int)
    requires u in dist && n in dist
    ensures var d := RelaxedDist(es, dist, u, ns);
            var cand := Add(d[u], Cost(es, u, n));
            && d[u] == dist[u]
            && (Lt(cand, d[n]) ==> RelaxedDist(es, dist, u, ns + [n]) == d[n := cand])
            && (!Lt(cand, d[n]) ==> RelaxedDist(es, dist, u, ns + [n]) == d)
  {
    var d := RelaxedDist(es, dist, u, ns);
    var d1 := RelaxedDist(es, dist, u, ns + [n]);
    var cand := Add(d[u], Cost(es, u, n));
    assert forall y :: y in ns + [n] <==> y in ns || y == n;
    assert d[u] == dist[u];
    if Lt(cand, d[n]) {
      assert Improves(es, dist, u, n) && n !in ns;
      assert d1 == d[n := cand];
    } else {
      assert d1 == d;
    }
  }

  /** Relaxing one more neighbour `n` is the update the loop body makes to `previous` */
  lemma RelaxPrevOneMore(es: seq<Edge>, dist: map<int, ExtNat>, prev: map<int, int>, u: int, ns: seq<int>, n: int)
    requires u in dist && n in dist
    ensures var d := RelaxedDist(es, dist, u, ns);
            var p := RelaxedPrev(es, dist, prev, u, ns);
            var cand := Add(d[u], Cost(es, u, n));
            && (Lt(cand, d[n]) ==> RelaxedPrev(es, dist, prev, u, ns + [n]) == p[n := u])
            && (!Lt(cand, d[n]) ==> RelaxedPrev(es, dist, prev, u, ns + [n]) == p)
  {
    var d := RelaxedDist(es, dist, u, ns);
    var p := RelaxedPrev(es, dist, prev, u, ns);
    var p1 := RelaxedPrev(es, dist, prev, u, ns + [n]);
    var cand := Add(d[u], Cost(es, u, n));
    assert forall y :: y in ns + [n] <==> y in ns || y == n;
    assert d[u] == dist[u];
    if Lt(cand, d[n]) {
      assert Improves(es, dist, u, n) && n !in ns;
      assert p1.Keys == p.Keys + {n};
      assert p1 == p[n := u];
    } else {
      assert p1.Keys == p.Keys;
      assert p1 == p;
    }
  }

  /**
   * The forEach over `findReachableNeighbors(current)` in `findPath`. Its
   * result is the closed form above, evaluated on the distances as they were
   * when `u` was selected.
   */
  method Relax(es: seq<Edge>, u: int, dist: map<int, ExtNat>, prev: map<int, int>)
    returns (dist': map<int, ExtNat>, prev': map<int, int>)
    requires u in dist && forall n :: n in Neighbors(es, u) ==> n in dist
    ensures dist' == RelaxedDist(es, dist, u, Neighbors(es, u))
    ensures prev' == RelaxedPrev(es, dist, prev, u, Neighbors(es, u))
  {
    var ns := Neighbors(es, u);
    dist', prev' := dist, prev;
    var k := 0;
    assert ns[..0] == [];
    while k < |ns|
      invariant 0 <= k <= |ns|
      invariant dist' == RelaxedDist(es, dist, u, ns[..k])
      invariant prev' == RelaxedPrev(es, dist, prev, u, ns[..k])
    {
      var n := ns[k];
      assert n in ns;
      RelaxDistOneMore(es, dist, u, ns[..k], n);
      RelaxPrevOneMore(es, dist, prev, u, ns[..k], n);
      var oldDistance := dist'[n];
      var distanceWithCurrent := Add(dist'[u], Cost(es, u, n));
      if Lt(distanceWithCurrent, oldDistance) {
        dist' := dist'[n := distanceWithCurrent];
        prev' := prev'[n := u];
      }
      assert ns[..k + 1] == ns[..k] + [n];
      k := k + 1;
    }
    assert ns[..|ns|] == ns;
  }

  /**
   * What one relaxation round does to a vertex `y`: its distance never
   * grows; it changes, together with its predecessor which becomes `u`, only
   * when the path through `u` is strictly shorter, and then to that path's
   * length; the distance of `u` itself never changes; and afterwards no
   * neighbour is farther than the path through `u`.
   */
  lemma RelaxedSpec(es: seq<Edge>, dist: map<int, ExtNat>, prev: map<int, int>, u: int, y: int)
    requires u in dist && y in dist
    ensures var d' := RelaxedDist(es, dist, u, Neighbors(es, u));
            var p' := RelaxedPrev(es, dist, prev, u, Neighbors(es, u));
            && d'.Keys == dist.Keys
            && Le(d'[y], dist[y])
            && d'[u] == dist[u]
            && (Improves(es, dist, u, y) ==> d'[y] == Add(dist[u], Cost(es, u, y)) && y in p' && p'[y] == u)
            && (!Improves(es, dist, u, y) ==> d'[y] == dist[y] && (y in p' <==> y in prev) && (y in prev ==> p'[y] == prev[y]))
            && Le(d'[y], Add(dist[u], Cost(es, u, y)))
  {
    NeighborsMember(es, u, y);
    CostFirstMatch(es, u, y);
  }
}
