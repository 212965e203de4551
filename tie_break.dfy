/**
 * Which of two equally short paths `findPath` returns, on the diamond
 * 0 -> 1, 0 -> 2, 1 -> 3, 2 -> 3 (every edge of the same cost `c`): vertex
 * 1 ties with 2 and comes first in the vertex list, so it is marked first
 * and becomes the predecessor of 3; relaxing 3 from 2 later is no strict
 * improvement, so the predecessor stays.
 */
module TieBreak {
  import opened ExtendedNat
  import opened Results
  import opened SeqUtil
  import opened Edges
  import opened Selection
  import opened Relaxation
  import opened Dijkstra

  function Diamond(c: nat): seq<Edge>
  {
    [Edge(0, 1, c), Edge(0, 2, c), Edge(1, 3, c), Edge(2, 3, c)]
  }

  lemma DiamondEndpoints(c: nat)
    ensures Endpoints(Diamond(c)) == [0, 1, 0, 2, 1, 3, 2, 3]
  {
    var es := Diamond(c);
    assert es[..0] == [];
    assert es[..1][..0] == es[..0];
    assert es[..2][..1] == es[..1];
    assert es[..3][..2] == es[..2];
    assert es[..4][..3] == es[..3];
    assert es[..4] == es;
    assert Endpoints(es[..1]) == [0, 1];
    assert Endpoints(es[..2]) == [0, 1, 0, 2];
    assert Endpoints(es[..3]) == [0, 1, 0, 2, 1, 3];
  }

  lemma DiamondVertices(c: nat)
    ensures VerticesOf(Diamond(c)) == [0, 1, 2, 3]
  {
    DiamondEndpoints(c);
    var e: seq<int> := [0, 1, 0, 2, 1, 3, 2, 3];
    assert e[..0] == [];
    assert e[..1][..0] == e[..0];
    assert e[..2][..1] == e[..1];
    assert e[..3][..2] == e[..2];
    assert e[..4][..3] == e[..3];
    assert e[..5][..4] == e[..4];
    assert e[..6][..5] == e[..5];
    assert e[..7][..6] == e[..6];
    assert e[..8][..7] == e[..7];
    assert e[..8] == e;
    assert Dedup(e[..1]) == [0];
    assert Dedup(e[..2]) == [0, 1];
    assert Dedup(e[..3]) == [0, 1];
    assert Dedup(e[..4]) == [0, 1, 2];
    assert Dedup(e[..5]) == [0, 1, 2];
    assert Dedup(e[..6]) == [0, 1, 2, 3];
    assert Dedup(e[..7]) == [0, 1, 2, 3];
  }

  lemma DiamondNeighbors(c: nat)
    ensures Neighbors(Diamond(c), 0) == [1, 2]
    ensures Neighbors(Diamond(c), 1) == [3]
    ensures Neighbors(Diamond(c), 2) == [3]
    ensures Neighbors(Diamond(c), 3) == []
  {
    var es := Diamond(c);
    assert es[1..] == [Edge(0, 2, c), Edge(1, 3, c), Edge(2, 3, c)];
    assert es[1..][1..] == [Edge(1, 3, c), Edge(2, 3, c)];
    assert es[1..][1..][1..] == [Edge(2, 3, c)];
    var e1, e2, e3 := es[1..], es[1..][1..], es[1..][1..][1..];
    assert e3 == [Edge(2, 3, c)] && e3[1..] == [];
    assert Neighbors(e3, 0) == [] && Neighbors(e3, 1) == [] && Neighbors(e3, 2) == [3] && Neighbors(e3, 3) == [];
    assert Neighbors(e2, 0) == [] && Neighbors(e2, 1) == [3] && Neighbors(e2, 2) == [3] && Neighbors(e2, 3) == [];
    assert Neighbors(e1, 0) == [2] && Neighbors(e1, 1) == [3] && Neighbors(e1, 2) == [3] && Neighbors(e1, 3) == [];
  }

  lemma DiamondCosts(c: nat)
    ensures Cost(Diamond(c), 0, 1) == Fin(c) && Cost(Diamond(c), 0, 2) == Fin(c)
    ensures Cost(Diamond(c), 1, 3) == Fin(c) && Cost(Diamond(c), 2, 3) == Fin(c)
  {
    var es := Diamond(c);
    assert es[1..] == [Edge(0, 2, c), Edge(1, 3, c), Edge(2, 3, c)];
    assert es[1..][1..] == [Edge(1, 3, c), Edge(2, 3, c)];
    assert es[1..][1..][1..] == [Edge(2, 3, c)];
    assert Cost(es[1..][1..], 1, 3) == Fin(c) && Cost(es[1..][1..], 2, 3) == Fin(c);
  }

  function D0(): map<int, ExtNat> { map[0 := Fin(0), 1 := Inf, 2 := Inf, 3 := Inf] }
  function D1(c: nat): map<int, ExtNat> { map[0 := Fin(0), 1 := Fin(c), 2 := Fin(c), 3 := Inf] }
  function D2(c: nat): map<int, ExtNat> { map[0 := Fin(0), 1 := Fin(c), 2 := Fin(c), 3 := Fin(c + c)] }
  function P1(): map<int, int> { map[1 := 0, 2 := 0] }
  function P2(): map<int, int> { map[1 := 0, 2 := 0, 3 := 1] }

  lemma Select1()
    ensures SmallestUnmarked([0, 1, 2, 3], [], D0()) == Some(0)
  {
    assert Unmarked([0, 1, 2, 3], []) == [0, 1, 2, 3];
    assert ReduceMin(D0(), 0, [1, 2, 3]) == 0;
  }

  lemma Round1(c: nat)
    ensures RelaxedDist(Diamond(c), D0(), 0, Neighbors(Diamond(c), 0)) == D1(c)
    ensures RelaxedPrev(Diamond(c), D0(), map[], 0, Neighbors(Diamond(c), 0)) == P1()
  {
    DiamondNeighbors(c);
    DiamondCosts(c);
    assert Improves(Diamond(c), D0(), 0, 1) && Improves(Diamond(c), D0(), 0, 2);
    assert !Improves(Diamond(c), D0(), 0, 0) && !Improves(Diamond(c), D0(), 0, 3);
  }

  /** 1 and 2 are equally close, and 1 comes first in the vertex list */
  lemma Select2(c: nat)
    ensures SmallestUnmarked([0, 1, 2, 3], [0], D1(c)) == Some(1)
  {
    assert Unmarked([0, 1, 2, 3], [0]) == [1, 2, 3];
    assert MinDist(D1(c), 1, 2) == 1;
    assert [2, 3][1..] == [3];
    assert ReduceMin(D1(c), 1, [2, 3]) == 1;
  }

  lemma Round2(c: nat)
    ensures RelaxedDist(Diamond(c), D1(c), 1, Neighbors(Diamond(c), 1)) == D2(c)
    ensures RelaxedPrev(Diamond(c), D1(c), P1(), 1, Neighbors(Diamond(c), 1)) == P2()
  {
    DiamondNeighbors(c);
    DiamondCosts(c);
    assert Improves(Diamond(c), D1(c), 1, 3);
  }

  lemma Select3(c: nat)
    ensures SmallestUnmarked([0, 1, 2, 3], [0, 1], D2(c)) == Some(2)
  {
    assert Unmarked([0, 1, 2, 3], [0, 1]) == [2, 3];
    assert ReduceMin(D2(c), 2, [3]) == 2;
  }

  /** The tie: the route through 2 costs as much as the one through 1, so nothing changes */
  lemma Round3(c: nat)
    ensures RelaxedDist(Diamond(c), D2(c), 2, Neighbors(Diamond(c), 2)) == D2(c)
    ensures RelaxedPrev(Diamond(c), D2(c), P2(), 2, Neighbors(Diamond(c), 2)) == P2()
  {
    DiamondNeighbors(c);
    DiamondCosts(c);
    assert !Improves(Diamond(c), D2(c), 2, 3);
  }

  lemma Select4(c: nat)
    ensures SmallestUnmarked([0, 1, 2, 3], [0, 1, 2], D2(c)) == Some(3)
  {
    assert Unmarked([0, 1, 2, 3], [0, 1, 2]) == [3];
  }

  /** Once every vertex is marked, `findSmallestUnmarked` returns `null` */
  lemma SelectNone(c: nat)
    ensures SmallestUnmarked([0, 1, 2, 3], [0, 1, 2, 3], D2(c)).None?
  {
    assert Unmarked([0, 1, 2, 3], [0, 1, 2, 3]) == [];
  }

  /** 3 has no outgoing edge */
  lemma Round4(c: nat)
    ensures RelaxedDist(Diamond(c), D2(c), 3, Neighbors(Diamond(c), 3)) == D2(c)
    ensures RelaxedPrev(Diamond(c), D2(c), P2(), 3, Neighbors(Diamond(c), 3)) == P2()
  {
    DiamondNeighbors(c);
    assert RelaxedDist(Diamond(c), D2(c), 3, Neighbors(Diamond(c), 3)) == D2(c);
  }

  /** Round 1 marks 0; 1 and 2 get it as predecessor */
  lemma Step1(c: nat)
    ensures Rounds(Diamond(c), [0, 1, 2, 3], [], D0(), map[]) == Rounds(Diamond(c), [0, 1, 2, 3], [0], D1(c), P1())
  {
    Select1(); Round1(c);
    RoundsStep(Diamond(c), [0, 1, 2, 3], [], D0(), map[], 0, [0], D1(c), P1());
  }

  /** Round 2 marks 1, the leftmost of the two closest, and 3 gets it as predecessor */
  lemma Step2(c: nat)
    ensures Rounds(Diamond(c), [0, 1, 2, 3], [0], D1(c), P1()) == Rounds(Diamond(c), [0, 1, 2, 3], [0, 1], D2(c), P2())
  {
    Select2(c); Round2(c);
    RoundsStep(Diamond(c), [0, 1, 2, 3], [0], D1(c), P1(), 1, [0, 1], D2(c), P2());
  }

  /** Round 3 marks 2 and changes nothing */
  lemma Step3(c: nat)
    ensures Rounds(Diamond(c), [0, 1, 2, 3], [0, 1], D2(c), P2()) == Rounds(Diamond(c), [0, 1, 2, 3], [0, 1, 2], D2(c), P2())
  {
    Select3(c); Round3(c);
    RoundsStep(Diamond(c), [0, 1, 2, 3], [0, 1], D2(c), P2(), 2, [0, 1, 2], D2(c), P2());
  }

  /** Round 4 marks 3, which has no outgoing edge, and then the loop ends */
  lemma Step4(c: nat)
    ensures Rounds(Diamond(c), [0, 1, 2, 3], [0, 1, 2], D2(c), P2()) == (D2(c), P2())
  {
    Select4(c); Round4(c);
    RoundsStep(Diamond(c), [0, 1, 2, 3], [0, 1, 2], D2(c), P2(), 3, [0, 1, 2, 3], D2(c), P2());
    SelectNone(c);
    RoundsDone(Diamond(c), [0, 1, 2, 3], [0, 1, 2, 3], D2(c), P2());
  }

  /** The four rounds of `findPath` from 0: vertex 3 keeps 1, marked before 2, as predecessor */
  lemma DiamondTables(c: nat)
    ensures FinalTables(Diamond(c), 0) == (D2(c), P2())
  {
    DiamondVertices(c);
    assert InitialDist([0, 1, 2, 3], 0) == D0();
    Step1(c); Step2(c); Step3(c); Step4(c);
  }

  /**
   * `findPath(0, 3)` on the diamond: both routes cost 2, and the one through
   * 1, the neighbour listed first, is the one returned.
   */
  method DiamondPath(c: nat) returns (path: Option<seq<int>>)
    ensures path == Some([0, 1, 3])
  {
    path := FindPathIn(Diamond(c), 0, 3);
    DiamondTables(c);
    assert 3 in P2();
    var p := path.value;
    assert FollowsLinks([0, 1, 3], P2());
    LinksDetermineWalk(p, [0, 1, 3], P2());
  }
}
