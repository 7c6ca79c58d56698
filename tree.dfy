/**
 * The shape of a built range tree as a value: every RangeTreeNode with its
 * split position and the keys of its associated FractionalCascading, and
 * the tree RangeTree.constructRangeTree builds from the x-sorted points.
 */
module Trees {
  import opened Geometry
  import opened Ordering
  import opened Cascading
  import opened Indexing

  /** A RangeTreeNode reference: Nil is null. */
  datatype Tree = Nil | Node(position: real, keys: seq<FractionalCascadingKey>, left: Tree, right: Tree)

  /** The points stored in a subtree: those of its root's cascade. */
  function Points(t: Tree): seq<Point> {
    if t.Nil? then [] else KeyPoints(t.keys)
  }

  /** RangeTreeNode.isLeafNode. */
  predicate IsLeafNode(t: Tree) {
    t.Node? && t.left.Nil? && t.right.Nil?
  }

  /**
   * RangeTreeNode.compareTo: 0 when the position lies in [min, max], positive
   * when it lies below min, negative otherwise.
   */
  function CompareTo(position: real, min: real, max: real): (c: int)
    ensures c == 0 <==> min <= position <= max
    ensures c > 0 <==> position < min
    ensures c < 0 <==> min <= position && max < position
  {
    if min <= position && position <= max then 0
    else if position < min then 1
    else -1
  }

  /** The median offset constructRangeTree splits a range of the given size at. */
  function Median(size: int): (m: int)
    ensures size >= 1 ==> 0 <= m < size && m + 1 == (size + 1) / 2
    ensures size >= 2 ==> m + 1 < size
  {
    if size % 2 == 0 then size / 2 - 1 else size / 2
  }

  /** Every key bridges, on the given side, to the lower bound of its y among the child's keys. */
  ghost predicate Bridges(keys: seq<FractionalCascadingKey>, childKeys: seq<FractionalCascadingKey>, isLhs: bool) {
    forall i :: 0 <= i < |keys| ==>
      (if isLhs then keys[i].leftChild else keys[i].rightChild) == LowerBound(childKeys, KeyY, keys[i].point.y)
  }

  /**
   * A well-formed range (sub)tree: every cascade is indexed and y-sorted; a
   * leaf holds exactly the point at its position; an inner node has two
   * subtrees that split its points, the left ones at or below its position
   * and the right ones at or above it, and its keys bridge into both.
   */
  ghost predicate TreeOK(t: Tree)
    decreases t
  {
    t.Node? && WellOrdered(t.keys) &&
    if t.left.Nil? && t.right.Nil? then
      |t.keys| == 1 && t.keys[0].point.x == t.position
    else
      t.left.Node? && t.right.Node? && TreeOK(t.left) && TreeOK(t.right) &&
      multiset(Points(t)) == multiset(Points(t.left)) + multiset(Points(t.right)) &&
      (forall p :: p in Points(t.left) ==> p.x <= t.position) &&
      (forall p :: p in Points(t.right) ==> t.position <= p.x) &&
      Bridges(t.keys, t.left.keys, true) && Bridges(t.keys, t.right.keys, false)
  }

  /** Entries covering [start, end) hold end - start of them. */
  lemma CoversSize(xPoints: seq<Point>, start: nat, end: nat, ys: seq<IndexedPoint>)
    requires Covers(xPoints, start, end, ys)
    ensures |YSubset(start, end, ys)| == end - start
  {
    assert |multiset(YSubset(start, end, ys))| == |multiset(Tag(xPoints)[start..end])|;
  }

  /**
   * The keys of an inner node over the entries ys whose halves are the ranks
   * [start, leftEnd) and [leftEnd, end): its own points' keys, bridged first
   * into the left half's keys and then into the right half's.
   */
  function InnerKeys(ys: seq<IndexedPoint>, start: nat, leftEnd: nat, end: nat): (keys: seq<FractionalCascadingKey>)
    ensures KeyPoints(keys) == ConvertToPoints(ys)
  {
    var base := MakeKeys(ConvertToPoints(ys));
    var leftKeys := MakeKeys(ConvertToPoints(YSubset(start, leftEnd, ys)));
    WireKeepsPoints(base, leftKeys, true);
    var once := Wire(base, leftKeys, true);
    var rightKeys := MakeKeys(ConvertToPoints(YSubset(leftEnd, end, ys)));
    WireKeepsPoints(once, rightKeys, false);
    Wire(once, rightKeys, false)
  }

  /** Wiring keeps y-sorted, indexed keys so. */
  lemma InnerKeysWellOrdered(ys: seq<IndexedPoint>, start: nat, leftEnd: nat, end: nat)
    requires SortedBy(ys, IY)
    ensures WellOrdered(InnerKeys(ys, start, leftEnd, end))
  {
    var base := MakeKeys(ConvertToPoints(ys));
    var leftKeys := MakeKeys(ConvertToPoints(YSubset(start, leftEnd, ys)));
    var rightKeys := MakeKeys(ConvertToPoints(YSubset(leftEnd, end, ys)));
    MakeKeysWellOrdered(ConvertToPoints(ys));
    WireKeepsPoints(base, leftKeys, true);
    WireKeepsPoints(Wire(base, leftKeys, true), rightKeys, false);
  }

  /**
   * The halves of a range of two or more ranks: [start, leftEnd) and
   * [leftEnd, end), both covered by the range's y-subset ys.
   */
  lemma SplitCovers(xPoints: seq<Point>, start: nat, leftEnd: nat, end: nat, parentYPoints: seq<IndexedPoint>, ys: seq<IndexedPoint>)
    requires start + 1 < end && Covers(xPoints, start, end, parentYPoints)
    requires leftEnd == start + Median(end - start) + 1 && ys == YSubset(start, end, parentYPoints)
    ensures start < leftEnd < end && Covers(xPoints, start, leftEnd, ys) && Covers(xPoints, leftEnd, end, ys)
  {
    CoversSubrange(xPoints, start, end, parentYPoints, start, leftEnd);
    CoversSubrange(xPoints, start, end, parentYPoints, leftEnd, end);
  }

  /**
   * constructRangeTree(start, end, parent, parentYPoints, isLhs): the node for
   * the ranks [start, end). One point makes a leaf at that point's x. More
   * points make an inner node at the x of the median rank whose left subtree
   * holds the ranks up to and including the median; each child wires its
   * bridges into this node's keys when it is created, left child first.
   */
  function Build(xPoints: seq<Point>, start: nat, end: nat, parentYPoints: seq<IndexedPoint>): (t: Tree)
    requires start < end && Covers(xPoints, start, end, parentYPoints)
    ensures t.Node? && KeyPoints(t.keys) == ConvertToPoints(YSubset(start, end, parentYPoints))
    ensures |t.keys| == end - start
    decreases end - start
  {
    CoversSize(xPoints, start, end, parentYPoints);
    var currentYIndexedPoints := YSubset(start, end, parentYPoints);
    var currentYPoints := ConvertToPoints(currentYIndexedPoints);
    if |currentYPoints| == 1 then
      Node(currentYPoints[0].x, MakeKeys(currentYPoints), Nil, Nil)
    else
      var median := Median(end - start);
      var leftEndIndex := start + median + 1;
      SplitCovers(xPoints, start, leftEndIndex, end, parentYPoints, currentYIndexedPoints);
      Node(xPoints[median + start].x, InnerKeys(currentYIndexedPoints, start, leftEndIndex, end),
           Build(xPoints, start, leftEndIndex, currentYIndexedPoints),
           Build(xPoints, leftEndIndex, end, currentYIndexedPoints))
  }

  /** A range of one rank builds a leaf at the x of its point. */
  lemma BuildLeaf(xPoints: seq<Point>, start: nat, end: nat, parentYPoints: seq<IndexedPoint>)
    requires end == start + 1 && Covers(xPoints, start, end, parentYPoints)
    ensures |ConvertToPoints(YSubset(start, end, parentYPoints))| == 1
    ensures Build(xPoints, start, end, parentYPoints) ==
            Node(ConvertToPoints(YSubset(start, end, parentYPoints))[0].x, MakeKeys(ConvertToPoints(YSubset(start, end, parentYPoints))), Nil, Nil)
  {
    CoversSize(xPoints, start, end, parentYPoints);
  }

  /** A range of two or more ranks builds an inner node over the two halves. */
  lemma BuildInner(xPoints: seq<Point>, start: nat, leftEnd: nat, end: nat, parentYPoints: seq<IndexedPoint>, ys: seq<IndexedPoint>)
    requires start + 1 < end && Covers(xPoints, start, end, parentYPoints)
    requires leftEnd == start + Median(end - start) + 1 && ys == YSubset(start, end, parentYPoints)
    requires Covers(xPoints, start, leftEnd, ys) && Covers(xPoints, leftEnd, end, ys)
    ensures Build(xPoints, start, end, parentYPoints) ==
            Node(xPoints[leftEnd - 1].x, InnerKeys(ys, start, leftEnd, end),
                 Build(xPoints, start, leftEnd, ys), Build(xPoints, leftEnd, end, ys))
  {
    CoversSize(xPoints, start, end, parentYPoints);
    assert |ConvertToPoints(ys)| != 1;
  }

  /** The tree the RangeTree constructor builds over the x-sorted points. */
  function BuildRoot(xPoints: seq<Point>): (t: Tree)
    requires |xPoints| > 0
    ensures t.Node? && multiset(Points(t)) == multiset(xPoints)
  {
    SortedOnYCovers(xPoints);
    var t := Build(xPoints, 0, |xPoints|, SortedOnY(xPoints));
    NodePoints(xPoints, 0, |xPoints|, SortedOnY(xPoints));
    assert xPoints[0..|xPoints|] == xPoints;
    t
  }

  /** Over x-sorted points the whole tree is well formed and holds exactly those points. */
  lemma BuildRootIsRangeTree(xPoints: seq<Point>)
    requires |xPoints| > 0 && SortedBy(xPoints, X)
    ensures Covers(xPoints, 0, |xPoints|, SortedOnY(xPoints))
    ensures BuildRoot(xPoints) == Build(xPoints, 0, |xPoints|, SortedOnY(xPoints))
    ensures TreeOK(BuildRoot(xPoints))
  {
    SortedOnYCovers(xPoints);
    BuildIsRangeTree(xPoints, 0, |xPoints|, SortedOnY(xPoints));
  }

  /** Every point of a permutation of a slice of x-sorted points lies between the slice's end values. */
  lemma SliceBetween(xPoints: seq<Point>, lo: nat, hi: nat, s: seq<Point>)
    requires SortedBy(xPoints, X) && lo < hi <= |xPoints|
    requires multiset(s) == multiset(xPoints[lo..hi])
    ensures forall p :: p in s ==> xPoints[lo].x <= p.x <= xPoints[hi - 1].x
  {
    forall p | p in s ensures xPoints[lo].x <= p.x <= xPoints[hi - 1].x {
      assert p in multiset(xPoints[lo..hi]);
      var k :| 0 <= k < hi - lo && xPoints[lo..hi][k] == p;
      assert xPoints[lo + k] == p;
    }
  }

  /** An inner node's keys bridge into both of its subtrees' keys. */
  lemma BuildBridges(xPoints: seq<Point>, start: nat, end: nat, parentYPoints: seq<IndexedPoint>)
    requires start + 1 < end && Covers(xPoints, start, end, parentYPoints)
    ensures var t := Build(xPoints, start, end, parentYPoints);
            t.left.Node? && t.right.Node? &&
            Bridges(t.keys, t.left.keys, true) && Bridges(t.keys, t.right.keys, false)
  {
    var t := Build(xPoints, start, end, parentYPoints);
    var ys := YSubset(start, end, parentYPoints);
    var leftEnd := start + Median(end - start) + 1;
    SplitCovers(xPoints, start, leftEnd, end, parentYPoints, ys);
    BuildInner(xPoints, start, leftEnd, end, parentYPoints, ys);
    var leftPoints := ConvertToPoints(YSubset(start, leftEnd, ys));
    var rightPoints := ConvertToPoints(YSubset(leftEnd, end, ys));
    var base := MakeKeys(ConvertToPoints(ys));
    var once := Wire(base, MakeKeys(leftPoints), true);
    var left := Build(xPoints, start, leftEnd, ys);
    var right := Build(xPoints, leftEnd, end, ys);
    assert t.keys == Wire(once, MakeKeys(rightPoints), false);
    forall i | 0 <= i < |t.keys|
      ensures t.keys[i].leftChild == LowerBound(left.keys, KeyY, t.keys[i].point.y)
      ensures t.keys[i].rightChild == LowerBound(right.keys, KeyY, t.keys[i].point.y)
    {
      WireSetsLowerBounds(base, MakeKeys(leftPoints), true, i);
      WireSetsLowerBounds(once, MakeKeys(rightPoints), false, i);
      LowerBoundSamePoints(MakeKeys(leftPoints), left.keys, base[i].point.y);
      LowerBoundSamePoints(MakeKeys(rightPoints), right.keys, base[i].point.y);
    }
  }

  /** The keys of a built node are its points, indexed and y-sorted. */
  lemma BuildKeys(xPoints: seq<Point>, start: nat, end: nat, parentYPoints: seq<IndexedPoint>)
    requires start < end && Covers(xPoints, start, end, parentYPoints)
    requires SortedBy(parentYPoints, IY)
    ensures WellOrdered(Build(xPoints, start, end, parentYPoints).keys)
    ensures multiset(Points(Build(xPoints, start, end, parentYPoints))) == multiset(xPoints[start..end])
  {
    var ys := YSubset(start, end, parentYPoints);
    NodePoints(xPoints, start, end, parentYPoints);
    YSubsetSorted(start, end, parentYPoints);
    if end == start + 1 {
      BuildLeaf(xPoints, start, end, parentYPoints);
      MakeKeysWellOrdered(ConvertToPoints(ys));
    } else {
      var leftEnd := start + Median(end - start) + 1;
      SplitCovers(xPoints, start, leftEnd, end, parentYPoints, ys);
      BuildInner(xPoints, start, leftEnd, end, parentYPoints, ys);
      InnerKeysWellOrdered(ys, start, leftEnd, end);
    }
  }

  /** An inner node's position separates the x values of its two subtrees. */
  lemma BuildSeparates(xPoints: seq<Point>, start: nat, end: nat, parentYPoints: seq<IndexedPoint>)
    requires start + 1 < end && Covers(xPoints, start, end, parentYPoints)
    requires SortedBy(xPoints, X) && SortedBy(parentYPoints, IY)
    ensures var t := Build(xPoints, start, end, parentYPoints);
            t.left.Node? && t.right.Node? &&
            multiset(Points(t)) == multiset(Points(t.left)) + multiset(Points(t.right)) &&
            (forall p :: p in Points(t.left) ==> p.x <= t.position) &&
            (forall p :: p in Points(t.right) ==> t.position <= p.x)
  {
    var ys := YSubset(start, end, parentYPoints);
    var leftEnd := start + Median(end - start) + 1;
    SplitCovers(xPoints, start, leftEnd, end, parentYPoints, ys);
    BuildInner(xPoints, start, leftEnd, end, parentYPoints, ys);
    YSubsetSorted(start, end, parentYPoints);
    var left := Build(xPoints, start, leftEnd, ys);
    var right := Build(xPoints, leftEnd, end, ys);
    BuildKeys(xPoints, start, end, parentYPoints);
    BuildKeys(xPoints, start, leftEnd, ys);
    BuildKeys(xPoints, leftEnd, end, ys);
    SplitMultiset(xPoints, start, leftEnd, end);
    SliceBetween(xPoints, start, leftEnd, Points(left));
    SliceBetween(xPoints, leftEnd, end, Points(right));
    assert X(xPoints[leftEnd - 1]) <= X(xPoints[leftEnd]);
  }

  lemma SplitMultiset(s: seq<Point>, lo: nat, mid: nat, hi: nat)
    requires lo <= mid <= hi <= |s|
    ensures multiset(s[lo..hi]) == multiset(s[lo..mid]) + multiset(s[mid..hi])
  {
    assert s[lo..hi] == s[lo..mid] + s[mid..hi];
  }

  /**
   * Built over x-sorted points, every node is well formed and holds exactly
   * the points of its rank range.
   */
  lemma {:induction false} BuildIsRangeTree(xPoints: seq<Point>, start: nat, end: nat, parentYPoints: seq<IndexedPoint>)
    requires start < end && Covers(xPoints, start, end, parentYPoints)
    requires SortedBy(xPoints, X) && SortedBy(parentYPoints, IY)
    ensures TreeOK(Build(xPoints, start, end, parentYPoints))
    ensures multiset(Points(Build(xPoints, start, end, parentYPoints))) == multiset(xPoints[start..end])
    decreases end - start
  {
    var t := Build(xPoints, start, end, parentYPoints);
    var ys := YSubset(start, end, parentYPoints);
    BuildKeys(xPoints, start, end, parentYPoints);
    if end == start + 1 {
      BuildLeaf(xPoints, start, end, parentYPoints);
      assert t.keys[0].point == ConvertToPoints(ys)[0];
    } else {
      var leftEnd := start + Median(end - start) + 1;
      SplitCovers(xPoints, start, leftEnd, end, parentYPoints, ys);
      BuildInner(xPoints, start, leftEnd, end, parentYPoints, ys);
      YSubsetSorted(start, end, parentYPoints);
      BuildIsRangeTree(xPoints, start, leftEnd, ys);
      BuildIsRangeTree(xPoints, leftEnd, end, ys);
      BuildSeparates(xPoints, start, end, parentYPoints);
      BuildBridges(xPoints, start, end, parentYPoints);
    }
  }
}
