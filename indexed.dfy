/**
 * The bookkeeping the range tree constructor does on y-sorted points
 * (RangeTree.IndexedPoint, sortPointsOnY, constructYSubset and
 * convertToPoints): each point carries its rank in the x-sorted list, so
 * that a node's y-sorted points are the entries whose rank lies in the
 * node's range.
 */
module Indexing {
  import opened Geometry
  import opened Ordering

  /** RangeTree.IndexedPoint: a point and its rank in the x-sorted list. */
  datatype IndexedPoint = IndexedPoint(index: nat, point: Point)

  function IY(q: IndexedPoint): real { q.point.y }

  /** The points, each tagged with its position. */
  function Tag(points: seq<Point>): seq<IndexedPoint> {
    seq(|points|, i requires 0 <= i < |points| => IndexedPoint(i, points[i]))
  }

  /** sortPointsOnY: the tagged points, stably sorted on y. */
  function SortedOnY(points: seq<Point>): (r: seq<IndexedPoint>)
    ensures SortedBy(r, IY)
    ensures multiset(r) == multiset(Tag(points))
  {
    SortBy(Tag(points), IY)
  }

  /** constructYSubset: the entries whose rank lies in [start, end), in their order. */
  function YSubset(start: int, end: int, ys: seq<IndexedPoint>): (r: seq<IndexedPoint>)
    ensures |r| <= |ys|
    ensures forall q {:trigger q in r} :: q in r ==> q in ys && start <= q.index < end
  {
    if ys == [] then []
    else
      var last := ys[|ys| - 1];
      YSubset(start, end, ys[..|ys| - 1]) + (if start <= last.index < end then [last] else [])
  }

  /** convertToPoints: the points of the entries, in order. */
  function ConvertToPoints(ys: seq<IndexedPoint>): (r: seq<Point>)
    ensures |r| == |ys|
  {
    seq(|ys|, i requires 0 <= i < |ys| => ys[i].point)
  }

  /** The points of y-sorted entries are y-sorted. */
  lemma ConvertSorted(ys: seq<IndexedPoint>)
    requires SortedBy(ys, IY)
    ensures SortedBy(ConvertToPoints(ys), Y)
  {
  }

  /** Taking the y-subset keeps the entries' y order. */
  lemma {:induction false} YSubsetSorted(start: int, end: int, ys: seq<IndexedPoint>)
    requires SortedBy(ys, IY)
    ensures SortedBy(YSubset(start, end, ys), IY)
    decreases |ys|
  {
    if ys != [] {
      var front := ys[..|ys| - 1];
      var last := ys[|ys| - 1];
      assert SortedBy(front, IY) by {
        forall i, j | 0 <= i < j < |front| ensures IY(front[i]) <= IY(front[j]) {
          assert front[i] == ys[i] && front[j] == ys[j];
        }
      }
      YSubsetSorted(start, end, front);
      var r := YSubset(start, end, front);
      forall q | q in r ensures IY(q) <= IY(last) {
        var k :| 0 <= k < |front| && front[k] == q;
        assert ys[k] == q;
      }
    }
  }

  /** Taking the y-subset keeps the entries in their original relative order. */
  lemma {:induction false} YSubsetIsSubsequence(start: int, end: int, ys: seq<IndexedPoint>)
    ensures SubsequenceOf(YSubset(start, end, ys), ys)
    decreases |ys|
  {
    if ys != [] {
      var front := ys[..|ys| - 1];
      YSubsetIsSubsequence(start, end, front);
      var r := YSubset(start, end, ys);
      if start <= ys[|ys| - 1].index < end {
        assert r[..|r| - 1] == YSubset(start, end, front);
      } else {
        assert r == YSubset(start, end, front);
      }
    }
  }

  /** An entry is kept exactly when its rank is in range, with its multiplicity. */
  lemma {:induction false} YSubsetCount(start: int, end: int, ys: seq<IndexedPoint>, q: IndexedPoint)
    ensures multiset(YSubset(start, end, ys))[q] == if start <= q.index < end then multiset(ys)[q] else 0
    decreases |ys|
  {
    if ys != [] {
      var front := ys[..|ys| - 1];
      assert ys == front + [ys[|ys| - 1]];
      YSubsetCount(start, end, front, q);
    }
  }

  /** The y-subsets of two permutations of one another are permutations of one another. */
  lemma YSubsetPermutation(start: int, end: int, a: seq<IndexedPoint>, b: seq<IndexedPoint>)
    requires multiset(a) == multiset(b)
    ensures multiset(YSubset(start, end, a)) == multiset(YSubset(start, end, b))
  {
    forall q ensures multiset(YSubset(start, end, a))[q] == multiset(YSubset(start, end, b))[q] {
      YSubsetCount(start, end, a, q);
      YSubsetCount(start, end, b, q);
    }
  }

  /** A tagged slice holds each entry of rank in [start, end) once, and nothing else. */
  lemma {:induction false} TagCount(points: seq<Point>, start: nat, end: nat, q: IndexedPoint)
    requires start <= end <= |points|
    ensures multiset(Tag(points)[start..end])[q] ==
            if start <= q.index < end && q.point == points[q.index] then 1 else 0
    decreases end - start
  {
    if start < end {
      var tagged := Tag(points);
      assert tagged[start..end] == tagged[start..end - 1] + [tagged[end - 1]];
      TagCount(points, start, end - 1, q);
    }
  }

  /**
   * The y-sorted entries of a node cover the ranks [start, end) of the x-sorted
   * points, each exactly once.
   */
  ghost predicate Covers(xPoints: seq<Point>, start: nat, end: nat, ys: seq<IndexedPoint>) {
    start <= end <= |xPoints| && multiset(YSubset(start, end, ys)) == multiset(Tag(xPoints)[start..end])
  }

  /** The sorted, tagged points cover every rank. */
  lemma SortedOnYCovers(xPoints: seq<Point>)
    ensures Covers(xPoints, 0, |xPoints|, SortedOnY(xPoints))
  {
    var ys := SortedOnY(xPoints);
    var tagged := Tag(xPoints);
    assert tagged[0..|xPoints|] == tagged;
    forall q ensures multiset(YSubset(0, |xPoints|, ys))[q] == multiset(tagged)[q] {
      YSubsetCount(0, |xPoints|, ys, q);
      TagCount(xPoints, 0, |xPoints|, q);
    }
  }

  /** Restricting a node's entries to a sub-range keeps each entry of that sub-range once. */
  lemma SubrangeCount(xPoints: seq<Point>, start: nat, end: nat, ys: seq<IndexedPoint>, lo: nat, hi: nat, q: IndexedPoint)
    requires Covers(xPoints, start, end, ys)
    requires start <= lo <= hi <= end
    ensures multiset(YSubset(lo, hi, YSubset(start, end, ys)))[q] == multiset(Tag(xPoints)[lo..hi])[q]
  {
    YSubsetCount(lo, hi, YSubset(start, end, ys), q);
    TagCount(xPoints, start, end, q);
    TagCount(xPoints, lo, hi, q);
  }

  /**
   * A node's entries restricted to a sub-range cover that sub-range; in
   * particular the two halves the constructor splits a node into.
   */
  lemma CoversSubrange(xPoints: seq<Point>, start: nat, end: nat, ys: seq<IndexedPoint>, lo: nat, hi: nat)
    requires Covers(xPoints, start, end, ys)
    requires start <= lo <= hi <= end
    ensures Covers(xPoints, lo, hi, YSubset(start, end, ys))
    ensures |YSubset(lo, hi, YSubset(start, end, ys))| == hi - lo
  {
    var sub := YSubset(lo, hi, YSubset(start, end, ys));
    var slice := Tag(xPoints)[lo..hi];
    forall q ensures multiset(sub)[q] == multiset(slice)[q] {
      SubrangeCount(xPoints, start, end, ys, lo, hi, q);
    }
    assert multiset(sub) == multiset(slice);
    assert |multiset(sub)| == |sub|;
  }

  /** The points of a tagged slice are the slice. */
  lemma ConvertTag(points: seq<Point>, start: nat, end: nat)
    requires start <= end <= |points|
    ensures ConvertToPoints(Tag(points)[start..end]) == points[start..end]
  {
  }

  /** Converting distributes over concatenation. */
  lemma ConvertAppend(a: seq<IndexedPoint>, b: seq<IndexedPoint>)
    ensures ConvertToPoints(a + b) == ConvertToPoints(a) + ConvertToPoints(b)
  {
  }

  /** Removing the entry at k removes one copy of it. */
  lemma RemoveOne(b: seq<IndexedPoint>, k: nat)
    requires k < |b|
    ensures multiset(b[..k] + b[k + 1..]) == multiset(b) - multiset{b[k]}
  {
    assert b == b[..k] + [b[k]] + b[k + 1..];
  }

  /** Removing the entry at k removes one copy of its point. */
  lemma ConvertRemoveOne(b: seq<IndexedPoint>, k: nat)
    requires k < |b|
    ensures multiset(ConvertToPoints(b)) == multiset(ConvertToPoints(b[..k] + b[k + 1..])) + multiset{b[k].point}
  {
    assert b == b[..k] + [b[k]] + b[k + 1..];
    ConvertAppend(b[..k] + [b[k]], b[k + 1..]);
    ConvertAppend(b[..k], [b[k]]);
    ConvertAppend(b[..k], b[k + 1..]);
  }

  /** The points of two permutations of one another are permutations of one another. */
  lemma {:induction false} ConvertPermutation(a: seq<IndexedPoint>, b: seq<IndexedPoint>)
    requires multiset(a) == multiset(b)
    ensures multiset(ConvertToPoints(a)) == multiset(ConvertToPoints(b))
    decreases |a|
  {
    if a != [] {
      var front := a[..|a| - 1];
      var last := a[|a| - 1];
      assert a == front + [last];
      assert last in multiset(b);
      var k :| 0 <= k < |b| && b[k] == last;
      var rest := b[..k] + b[k + 1..];
      RemoveOne(b, k);
      assert multiset(front) == multiset(a) - multiset{last};
      assert multiset(front) == multiset(rest);
      ConvertPermutation(front, rest);
      ConvertAppend(front, [last]);
      assert ConvertToPoints(a) == ConvertToPoints(front) + ConvertToPoints([last]);
      assert ConvertToPoints([last]) == [last.point];
      assert multiset(ConvertToPoints(a)) == multiset(ConvertToPoints(rest)) + multiset{last.point};
      ConvertRemoveOne(b, k);
    }
  }

  /**
   * A node's points are a permutation of its range of the x-sorted points,
   * and they come out y-sorted.
   */
  lemma NodePoints(xPoints: seq<Point>, start: nat, end: nat, ys: seq<IndexedPoint>)
    requires Covers(xPoints, start, end, ys)
    requires SortedBy(ys, IY)
    ensures multiset(ConvertToPoints(YSubset(start, end, ys))) == multiset(xPoints[start..end])
    ensures SortedBy(ConvertToPoints(YSubset(start, end, ys)), Y)
  {
    ConvertPermutation(YSubset(start, end, ys), Tag(xPoints)[start..end]);
    ConvertTag(xPoints, start, end);
    YSubsetSorted(start, end, ys);
  }
}
