/** Nearest-site selection: candidates are ordered by their distance from a
    reference position with a stable sort and the first one is taken.

    Distances are compared as integer squared distances. The square root the
    game applies is monotone, so the order of two candidates, ties included,
    is the same as long as distinct squared distances never round to equal
    floating-point roots (true for the map's coordinate range). */
module Nearest {
  import opened Entities

  /** The squared Euclidean distance between a and b. */
  function SqDistance(a: Position, b: Position): (d: int)
    ensures d >= 0
    ensures d == 0 <==> a == b
  {
    var dx, dy := b.x - a.x, b.y - a.y;
    assert dx * dx >= 0 && dy * dy >= 0;
    assert dx != 0 ==> dx * dx > 0;
    assert dy != 0 ==> dy * dy > 0;
    dx * dx + dy * dy
  }

  /** Distance does not depend on the direction it is measured in. */
  lemma SqDistanceSymmetric(a: Position, b: Position)
    ensures SqDistance(a, b) == SqDistance(b, a)
  {
    var dx, dy := b.x - a.x, b.y - a.y;
    assert (-dx) * (-dx) == dx * dx;
    assert (-dy) * (-dy) == dy * dy;
  }

  /** The sort key of find_nearest: distance from a fixed position. */
  function DistanceFrom(from: Position): Position -> int
  {
    p => SqDistance(from, p)
  }

  predicate SortedBy(key: Position -> int, s: seq<Position>)
  {
    forall i, j :: 0 <= i < j < |s| ==> key(s[i]) <= key(s[j])
  }

  /** Every element of rest is one of sorted's tail or p itself, and p's key
      is above the head's: so the head's key bounds all of rest. */
  lemma HeadBoundsRest(key: Position -> int, p: Position, sorted: seq<Position>, rest: seq<Position>)
    requires SortedBy(key, sorted) && sorted != []
    requires key(sorted[0]) < key(p)
    requires multiset(rest) == multiset(sorted[1..]) + multiset{p}
    ensures forall i :: 0 <= i < |rest| ==> key(sorted[0]) <= key(rest[i])
  {
    forall i | 0 <= i < |rest|
      ensures key(sorted[0]) <= key(rest[i])
    {
      assert rest[i] in multiset(rest);
      if rest[i] != p {
        assert rest[i] in multiset(sorted[1..]);
        var j :| 0 <= j < |sorted[1..]| && sorted[1..][j] == rest[i];
        assert sorted[j + 1] == rest[i];
      }
    }
  }

  /** A sorted list stays sorted with an element in front whose key is at
      most every key of the list. */
  lemma ConsSorted(key: Position -> int, head: Position, rest: seq<Position>)
    requires SortedBy(key, rest)
    requires forall i :: 0 <= i < |rest| ==> key(head) <= key(rest[i])
    ensures SortedBy(key, [head] + rest)
  {
    var r := [head] + rest;
    forall i, j | 0 <= i < j < |r|
      ensures key(r[i]) <= key(r[j])
    {
      assert r[j] == rest[j - 1];
      if i > 0 {
        assert r[i] == rest[i - 1];
      }
    }
  }

  /** Inserts p in front of the first element whose key is at least p's: p
      comes from earlier in the input than every element of sorted, so on a
      tie it stays in front, which is what a stable sort does. */
  function Insert(key: Position -> int, p: Position, sorted: seq<Position>): (r: seq<Position>)
    requires SortedBy(key, sorted)
    ensures |r| == |sorted| + 1
    ensures multiset(r) == multiset(sorted) + multiset{p}
    ensures SortedBy(key, r)
  {
    if sorted == [] then [p]
    else if key(p) <= key(sorted[0]) then
      ConsSorted(key, p, sorted);
      [p] + sorted
    else
      var head, rest := sorted[0], Insert(key, p, sorted[1..]);
      assert sorted == [head] + sorted[1..];
      HeadBoundsRest(key, p, sorted, rest);
      ConsSorted(key, head, rest);
      [head] + rest
  }

  /** The stable ascending sort of the candidates by key (an insertion sort;
      every stable sort gives the same order). */
  function SortBy(key: Position -> int, ps: seq<Position>): (r: seq<Position>)
    ensures SortedBy(key, r)
    ensures multiset(r) == multiset(ps)
    ensures |r| == |ps|
  {
    if ps == [] then []
    else
      assert ps == [ps[0]] + ps[1..];
      Insert(key, ps[0], SortBy(key, ps[1..]))
  }

  /** The nearest candidate, or None when there is none. */
  function FindNearest(from: Position, others: seq<Position>): Option<Position>
  {
    if |others| == 0 then None
    else
      var sorted := SortBy(DistanceFrom(from), others);
      Some(sorted[0])
  }

  /** Reference definition: the index of the first candidate of minimum
      key, by a left-to-right scan. */
  function FirstMinIndex(key: Position -> int, ps: seq<Position>): (k: nat)
    requires |ps| >= 1
    ensures k < |ps|
    ensures forall j :: 0 <= j < |ps| ==> key(ps[k]) <= key(ps[j])
    ensures forall j :: 0 <= j < k ==> key(ps[j]) > key(ps[k])
  {
    if |ps| == 1 then 0
    else
      var k := 1 + FirstMinIndex(key, ps[1..]);
      if key(ps[0]) <= key(ps[k]) then 0 else k
  }

  /** The head of the stable sort is the first candidate of minimum key. */
  lemma {:induction false} SortHeadIsFirstMin(key: Position -> int, ps: seq<Position>)
    requires |ps| >= 1
    ensures SortBy(key, ps)[0] == ps[FirstMinIndex(key, ps)]
  {
    if |ps| > 1 {
      var tail := ps[1..];
      SortHeadIsFirstMin(key, tail);
      var k := FirstMinIndex(key, tail);
      assert ps[1 + k] == tail[k];
    }
  }

  /** find_nearest answers None exactly for an empty candidate list; otherwise
      it answers a candidate at minimum distance that no earlier candidate
      ties with: the first minimum in input order. */
  lemma FindNearestIsFirstMinimum(from: Position, others: seq<Position>)
    ensures FindNearest(from, others).None? <==> others == []
    ensures others != [] ==>
              FindNearest(from, others) == Some(others[FirstMinIndex(DistanceFrom(from), others)])
    ensures others != [] ==> FindNearest(from, others).value in others
    ensures others != [] ==> forall q :: q in others ==>
              SqDistance(from, FindNearest(from, others).value) <= SqDistance(from, q)
  {
    if others != [] {
      SortHeadIsFirstMin(DistanceFrom(from), others);
    }
  }

  /** The first minimum is the only index at minimum key with every earlier
      key strictly greater. */
  lemma FirstMinIndexUnique(key: Position -> int, ps: seq<Position>, k: nat)
    requires k < |ps|
    requires forall j :: 0 <= j < |ps| ==> key(ps[k]) <= key(ps[j])
    requires forall j :: 0 <= j < k ==> key(ps[j]) > key(ps[k])
    ensures FirstMinIndex(key, ps) == k
  {
  }

  /** Stable tie-breaking: appending candidates none of which is strictly
      nearer than the current choice leaves the choice unchanged, even when
      some of them are exactly as near. */
  lemma FindNearestKeepsEarlierOnTie(from: Position, xs: seq<Position>, ys: seq<Position>)
    requires xs != []
    requires forall q :: q in ys ==> SqDistance(from, FindNearest(from, xs).value) <= SqDistance(from, q)
    ensures FindNearest(from, xs + ys) == FindNearest(from, xs)
  {
    var key := DistanceFrom(from);
    FindNearestIsFirstMinimum(from, xs);
    FindNearestIsFirstMinimum(from, xs + ys);
    var k := FirstMinIndex(key, xs);
    var zs := xs + ys;
    forall j | 0 <= j < |zs|
      ensures key(zs[k]) <= key(zs[j])
    {
      if j >= |xs| {
        assert zs[j] == ys[j - |xs|];
        assert zs[j] in ys;
      }
    }
    FirstMinIndexUnique(key, zs, k);
  }

  /** The position chosen from a list is chosen again from any list made of
      it plus candidates that are strictly farther away, wherever they sit. */
  lemma NearestAmongFartherCandidates(from: Position, nearest: Position, others: seq<Position>, i: nat)
    requires i < |others| && others[i] == nearest
    requires forall j :: 0 <= j < |others| && j != i ==>
               SqDistance(from, nearest) < SqDistance(from, others[j])
    ensures FindNearest(from, others) == Some(nearest)
  {
    FindNearestIsFirstMinimum(from, others);
    var k := FirstMinIndex(DistanceFrom(from), others);
    assert k == i;
  }

  // The cases the game's own test of find_nearest checks: the queen at
  // (50, 50) and the candidate (55, 55) alone or among farther ones.

  lemma FindNearestSingle()
    ensures FindNearest(Position(50, 50), [Position(55, 55)]) == Some(Position(55, 55))
  {
    NearestAmongFartherCandidates(Position(50, 50), Position(55, 55), [Position(55, 55)], 0);
  }

  lemma FindNearestFirstOfTwo()
    ensures FindNearest(Position(50, 50), [Position(55, 55), Position(1000, 1000)]) == Some(Position(55, 55))
  {
    var ps := [Position(55, 55), Position(1000, 1000)];
    NearestAmongFartherCandidates(Position(50, 50), Position(55, 55), ps, 0);
  }

  lemma FindNearestInTheMiddle()
    ensures FindNearest(Position(50, 50), [Position(1000, 1000), Position(55, 55), Position(1000, 1000)])
            == Some(Position(55, 55))
  {
    var ps := [Position(1000, 1000), Position(55, 55), Position(1000, 1000)];
    NearestAmongFartherCandidates(Position(50, 50), Position(55, 55), ps, 1);
  }

  lemma FindNearestOneAxisClose()
    ensures FindNearest(Position(50, 50), [Position(54, 1000), Position(55, 55), Position(1000, 54)])
            == Some(Position(55, 55))
  {
    var ps := [Position(54, 1000), Position(55, 55), Position(1000, 54)];
    NearestAmongFartherCandidates(Position(50, 50), Position(55, 55), ps, 1);
  }

  lemma FindNearestAmongNearbyOnes()
    ensures FindNearest(Position(50, 50), [Position(0, 0), Position(55, 55), Position(50, 40)])
            == Some(Position(55, 55))
  {
    var ps := [Position(0, 0), Position(55, 55), Position(50, 40)];
    NearestAmongFartherCandidates(Position(50, 50), Position(55, 55), ps, 1);
  }

  /** The distances the game's own test of the distance checks, squared. */
  lemma SqDistanceExamples()
    ensures SqDistance(Position(0, 0), Position(10, 0)) == 100
    ensures SqDistance(Position(0, 0), Position(0, 10)) == 100
    ensures SqDistance(Position(0, 0), Position(10, 10)) == 200
    ensures SqDistance(Position(50, 50), Position(55, 55)) == 50
  {
  }
}
