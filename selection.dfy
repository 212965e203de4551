/**
 * `findSmallestUnmarked` of both engines: filter the vertex list down to the
 * vertices not marked yet, then `reduce` it with `minDist`, which keeps the
 * left operand when its distance is `<=` the right one's.
 */
module Selection {
  import opened ExtendedNat
  import opened Results

  /** `minDist`: the left vertex unless the right one is strictly closer */
  function MinDist(dist: map<int, ExtNat>, a: int, b: int): (r: int)
    requires a in dist && b in dist
    ensures r == a || r == b
    ensures Le(dist[r], dist[a]) && Le(dist[r], dist[b])
    ensures r == b && b != a ==> Lt(dist[b], dist[a])
  {
    if Le(dist[a], dist[b]) then a else b
  }

  /** `[acc] + rest` reduced with `minDist`, from left to right */
  function ReduceMin(dist: map<int, ExtNat>, acc: int, rest: seq<int>): (r: int)
    requires acc in dist && forall x :: x in rest ==> x in dist
    ensures r == acc || r in rest
    decreases |rest|
  {
    if rest == [] then acc else ReduceMin(dist, MinDist(dist, acc, rest[0]), rest[1..])
  }

  /** No element is strictly closer than the one the reduction returns */
  lemma {:induction false} ReduceMinIsMin(dist: map<int, ExtNat>, acc: int, rest: seq<int>)
    requires acc in dist && forall x :: x in rest ==> x in dist
    ensures Le(dist[ReduceMin(dist, acc, rest)], dist[acc])
    ensures forall x :: x in rest ==> Le(dist[ReduceMin(dist, acc, rest)], dist[x])
    decreases |rest|
  {
    if rest != [] {
      var a' := MinDist(dist, acc, rest[0]);
      ReduceMinIsMin(dist, a', rest[1..]);
      forall x | x in rest ensures Le(dist[ReduceMin(dist, acc, rest)], dist[x]) {
        if x != rest[0] {
          assert x in rest[1..];
        }
      }
    }
  }

  /**
   * Where the reduction's result sits: at position `k` of `rest`, or the
   * initial element when `k` is -1; and it is strictly closer than every
   * element before that position.
   */
  lemma {:induction false} ReduceMinPosition(dist: map<int, ExtNat>, acc: int, rest: seq<int>) returns (k: int)
    requires acc in dist && forall x :: x in rest ==> x in dist
    ensures -1 <= k < |rest|
    ensures ReduceMin(dist, acc, rest) == if k < 0 then acc else rest[k]
    ensures k >= 0 ==> Lt(dist[rest[k]], dist[acc])
    ensures forall j :: 0 <= j < k ==> Lt(dist[rest[k]], dist[rest[j]])
    decreases |rest|
  {
    if rest == [] {
      k := -1;
    } else {
      var a' := MinDist(dist, acc, rest[0]);
      assert ReduceMin(dist, acc, rest) == ReduceMin(dist, a', rest[1..]);
      var k' := ReduceMinPosition(dist, a', rest[1..]);
      if k' < 0 {
        k := if a' == acc then -1 else 0;
      } else {
        k := k' + 1;
        assert rest[k] == rest[1..][k'];
        forall j | 0 <= j < k ensures Lt(dist[rest[k]], dist[rest[j]]) {
          if j > 0 {
            assert rest[j] == rest[1..][j - 1];
          }
        }
      }
    }
  }

  /**
   * Ties go to the left: an element as close as the returned one that comes
   * before it does not exist, so the returned one is the leftmost minimum.
   */
  lemma ReduceMinLeftmost(dist: map<int, ExtNat>, acc: int, rest: seq<int>)
    requires acc in dist && forall x :: x in rest ==> x in dist
    ensures Le(dist[acc], dist[ReduceMin(dist, acc, rest)]) ==> ReduceMin(dist, acc, rest) == acc
    ensures forall i :: 0 <= i < |rest| && rest[i] in dist && Le(dist[rest[i]], dist[ReduceMin(dist, acc, rest)])
                        ==> ReduceMin(dist, acc, rest) == acc || ReduceMin(dist, acc, rest) in rest[..i + 1]
  {
    var k := ReduceMinPosition(dist, acc, rest);
    var r := ReduceMin(dist, acc, rest);
    forall i | 0 <= i < |rest| && rest[i] in dist && Le(dist[rest[i]], dist[r]) ensures r == acc || r in rest[..i + 1] {
      if k >= 0 {
        assert k <= i;
        assert rest[..i + 1][k] == r;
      }
    }
  }

  /** `allVertices.filter(isNotMarked)` */
  function Unmarked(vs: seq<int>, marked: seq<int>): (r: seq<int>)
    ensures |r| <= |vs|
  {
    if vs == [] then [] else (if vs[0] in marked then [] else [vs[0]]) + Unmarked(vs[1..], marked)
  }

  lemma {:induction false} UnmarkedMember(vs: seq<int>, marked: seq<int>, x: int)
    ensures x in Unmarked(vs, marked) <==> x in vs && x !in marked
  {
    if vs != [] {
      UnmarkedMember(vs[1..], marked, x);
      assert vs == [vs[0]] + vs[1..];
    }
  }

  lemma {:induction false} UnmarkedAppend(a: seq<int>, b: seq<int>, marked: seq<int>)
    ensures Unmarked(a + b, marked) == Unmarked(a, marked) + Unmarked(b, marked)
  {
    if a == [] {
      assert a + b == b;
    } else {
      assert (a + b)[1..] == a[1..] + b;
      UnmarkedAppend(a[1..], b, marked);
    }
  }

  /** Marking one more vertex never adds candidates */
  lemma {:induction false} UnmarkedNoLonger(vs: seq<int>, marked: seq<int>, x: int)
    ensures |Unmarked(vs, marked + [x])| <= |Unmarked(vs, marked)|
  {
    if vs != [] {
      UnmarkedNoLonger(vs[1..], marked, x);
    }
  }

  /** Marking an unmarked vertex removes at least one candidate */
  lemma {:induction false} UnmarkedShrinks(vs: seq<int>, marked: seq<int>, u: int)
    requires u in vs && u !in marked
    ensures |Unmarked(vs, marked + [u])| < |Unmarked(vs, marked)|
  {
    if vs[0] == u {
      UnmarkedNoLonger(vs[1..], marked, u);
    } else {
      UnmarkedShrinks(vs[1..], marked, u);
    }
  }

  /** `findSmallestUnmarked`: `None` stands for the `null` it returns */
  function SmallestUnmarked(vs: seq<int>, marked: seq<int>, dist: map<int, ExtNat>): (r: Option<int>)
    requires forall v :: v in vs ==> v in dist
    ensures r.Some? ==> r.value in vs && r.value !in marked
  {
    var candidates := Unmarked(vs, marked);
    if |candidates| <= 0 then None
    else
      assert forall x :: x in candidates ==> x in dist by {
        forall x | x in candidates ensures x in dist { UnmarkedMember(vs, marked, x); }
      }
      var u := ReduceMin(dist, candidates[0], candidates[1..]);
      assert u in candidates by {
        if u != candidates[0] { assert u in candidates[1..]; }
      }
      UnmarkedMember(vs, marked, u);
      Some(u)
  }

  /** An unmarked vertex at position `i` is the last candidate of the prefix ending there */
  lemma UnmarkedPrefix(vs: seq<int>, marked: seq<int>, i: nat)
    requires i < |vs| && vs[i] !in marked
    ensures var c1 := Unmarked(vs[..i + 1], marked);
            && |c1| > 0 && c1[|c1| - 1] == vs[i]
            && Unmarked(vs, marked) == c1 + Unmarked(vs[i + 1..], marked)
  {
    assert vs == vs[..i + 1] + vs[i + 1..];
    UnmarkedAppend(vs[..i + 1], vs[i + 1..], marked);
    assert vs[..i + 1] == vs[..i] + [vs[i]];
    UnmarkedAppend(vs[..i], [vs[i]], marked);
    assert Unmarked([vs[i]], marked) == [vs[i]];
  }

  /** No unmarked vertex as close as the selected one comes before it in the vertex list */
  lemma SelectedLeftmostAt(vs: seq<int>, marked: seq<int>, dist: map<int, ExtNat>, i: nat)
    requires forall v :: v in vs ==> v in dist
    requires SmallestUnmarked(vs, marked, dist).Some?
    requires i < |vs| && vs[i] !in marked && Le(dist[vs[i]], dist[SmallestUnmarked(vs, marked, dist).value])
    ensures SmallestUnmarked(vs, marked, dist).value in vs[..i + 1]
  {
    var c := Unmarked(vs, marked);
    var u := SmallestUnmarked(vs, marked, dist).value;
    forall x | x in c ensures x in dist { UnmarkedMember(vs, marked, x); }
    ReduceMinLeftmost(dist, c[0], c[1..]);
    UnmarkedPrefix(vs, marked, i);
    var c1 := Unmarked(vs[..i + 1], marked);
    var j := |c1| - 1;
    assert c[j] == vs[i];
    assert c[..j + 1] == c1;
    if j > 0 {
      assert c[1..][j - 1] == c[j];
      assert c[1..][..j] == c[1..j + 1];
    }
    assert u in c1;
    UnmarkedMember(vs[..i + 1], marked, u);
  }

  /**
   * There is no selection exactly when every vertex is marked; otherwise the
   * selected vertex is unmarked, no unmarked vertex is strictly closer, and
   * every unmarked vertex as close comes at or after it in the vertex list.
   */
  lemma SmallestUnmarkedSpec(vs: seq<int>, marked: seq<int>, dist: map<int, ExtNat>)
    requires forall v :: v in vs ==> v in dist
    ensures SmallestUnmarked(vs, marked, dist).None? <==> forall v :: v in vs ==> v in marked
    ensures SmallestUnmarked(vs, marked, dist).Some? ==>
              var u := SmallestUnmarked(vs, marked, dist).value;
              && u in vs && u !in marked
              && (forall w :: w in vs && w !in marked ==> Le(dist[u], dist[w]))
              && (forall i :: 0 <= i < |vs| && vs[i] !in marked && Le(dist[vs[i]], dist[u]) ==> u in vs[..i + 1])
  {
    var c := Unmarked(vs, marked);
    forall x ensures x in c <==> x in vs && x !in marked { UnmarkedMember(vs, marked, x); }
    if |c| > 0 {
      var u := SmallestUnmarked(vs, marked, dist).value;
      ReduceMinIsMin(dist, c[0], c[1..]);
      ReduceMinLeftmost(dist, c[0], c[1..]);
      assert u in c;
      forall w | w in vs && w !in marked ensures Le(dist[u], dist[w]) {
        assert w in c;
        if w != c[0] { assert w in c[1..]; }
      }
      forall i | 0 <= i < |vs| && vs[i] !in marked && Le(dist[vs[i]], dist[u]) ensures u in vs[..i + 1] {
        SelectedLeftmostAt(vs, marked, dist, i);
      }
    } else {
      forall v | v in vs ensures v in marked {
        assert v !in c;
      }
    }
  }
}
